/**
 * Commands: a wire template with its validation, success and failure
 * patterns (command.go). `fmt.Sprintf` and the `%q` verb are foreign library
 * code and enter as function parameters.
 */
module Commands {
  import opened Text
  import opened Errors
  import opened Regexp

  /** An operand passed to a formatting verb. */
  datatype Arg = IntArg(i: int) | StrArg(s: GoString)

  /** `fmt.Sprintf(prototype, args...)`. */
  type Formatter = (GoString, seq<Arg>) -> GoString

  /** A command sent over the connection. `timeout` is in clock units. */
  datatype Command = Command(
    name: GoString,
    timeout: int,
    prototype: GoString,
    commandRegexp: Regex,
    response: Regex,
    error: Regex,
    description: GoString)

  /** The marker `fmt` leaves in its output for a missing, extra or mistyped operand. */
  const BadVerb: GoString := [PERCENT, BANG]

  /** The two results of `Command.Bytes`. */
  datatype Encoded = Encoded(bytes: GoString, err: Option<Error>)

  /**
   * `Command.Bytes`: format the prototype, reject leftover verb markers,
   * then require the validation pattern. The formatted text is returned in
   * every case.
   */
  function Bytes(c: Command, sprintf: Formatter, args: seq<Arg>): (r: Encoded)
    ensures r.bytes == sprintf(c.prototype, args)
    ensures r.err == Some(ErrBytesArgs) <==> Contains(r.bytes, BadVerb)
    ensures r.err == Some(ErrBytesFormat) <==>
      !Contains(r.bytes, BadVerb) && !c.commandRegexp.Match(r.bytes)
    ensures r.err == None <==>
      !Contains(r.bytes, BadVerb) && c.commandRegexp.Match(r.bytes)
  {
    var str := sprintf(c.prototype, args);
    if Contains(str, BadVerb) then
      Encoded(str, Some(ErrBytesArgs))
    else if !c.commandRegexp.Match(str) then
      Encoded(str, Some(ErrBytesFormat))
    else
      Encoded(str, None)
  }

  /** When formatting leaves a verb marker, the validation pattern is never
      consulted: commands that differ only in it give the same result. */
  lemma BytesArgsIgnoresCommandRegexp(c: Command, re: Regex, sprintf: Formatter, args: seq<Arg>)
    requires Contains(sprintf(c.prototype, args), BadVerb)
    ensures Bytes(c, sprintf, args) == Bytes(c.(commandRegexp := re), sprintf, args)
    ensures Bytes(c, sprintf, args).err == Some(ErrBytesArgs)
  {
  }

  /** Nothing but the two sentinels ever comes out of `Bytes` as an error. */
  lemma BytesErrorKinds(c: Command, sprintf: Formatter, args: seq<Arg>)
    ensures Bytes(c, sprintf, args).err in {None, Some(ErrBytesArgs), Some(ErrBytesFormat)}
  {
  }

  // ---------------------------------------------------------------------
  // sanitize, the helper inside Command.String

  /** The values `sanitize` is applied to: a string, a possibly nil
      `*regexp.Regexp`, or anything else (which its type switch ignores). */
  datatype Printable = StringValue(s: GoString) | RegexpValue(re: Option<Regex>) | OtherValue

  /** `strings.Replace(s, string(from), to, -1)` for a one-byte pattern. */
  function ReplaceAll(s: GoString, from: byte, to: GoString): (r: GoString)
    ensures from !in to ==> from !in r
    ensures from !in s ==> r == s
    ensures forall b :: b in r ==> b in s || b in to
  {
    if s == [] then []
    else (if s[0] == from then to else [s[0]]) + ReplaceAll(s[1..], from, to)
  }

  const EscapedCR: GoString := [BACKSLASH, 'r' as byte]
  const EscapedLF: GoString := [BACKSLASH, 'n' as byte]
  const NilText: GoString := ['n' as byte, 'i' as byte, 'l' as byte]

  /** The two nested `strings.Replace` calls: CR first, then LF. */
  function EscapeLineBreaks(s: GoString): (r: GoString)
    ensures CR !in r && LF !in r
  {
    ReplaceAll(ReplaceAll(s, CR, EscapedCR), LF, EscapedLF)
  }

  /** `sanitize`: `"nil"` for a nil regexp, otherwise the text (the pattern's
      source for a regexp) with line breaks escaped. */
  function Sanitize(v: Printable): (r: GoString)
    ensures v.RegexpValue? && v.re.None? ==> r == NilText
    ensures !(v.RegexpValue? && v.re.None?) ==> CR !in r && LF !in r
    ensures v.StringValue? && CR !in v.s && LF !in v.s ==> r == v.s
    ensures v.RegexpValue? && v.re.Some? && CR !in v.re.value.source && LF !in v.re.value.source
      ==> r == v.re.value.source
    ensures v.OtherValue? ==> r == []
    ensures v.StringValue? ==> r == EscapeEach(v.s)
    ensures v.RegexpValue? && v.re.Some? ==> r == EscapeEach(v.re.value.source)
  {
    match v
    case RegexpValue(re) =>
      if re.None? then NilText
      else EscapeLineBreaksIsBytewise(re.value.source); EscapeLineBreaks(re.value.source)
    case StringValue(s) => EscapeLineBreaksIsBytewise(s); EscapeLineBreaks(s)
    case OtherValue => EscapeLineBreaks([])
  }

  /** Byte-at-a-time reference for the escaping. */
  function EscapeByte(b: byte): GoString
  {
    if b == CR then EscapedCR else if b == LF then EscapedLF else [b]
  }

  function EscapeEach(s: GoString): GoString
  {
    if s == [] then [] else EscapeByte(s[0]) + EscapeEach(s[1..])
  }

  /** The nested replacements escape each byte on its own: a CR becomes `\r`,
      an LF `\n`, every other byte stays, in order. */
  lemma {:induction false} EscapeLineBreaksIsBytewise(s: GoString)
    ensures EscapeLineBreaks(s) == EscapeEach(s)
  {
    if s != [] {
      EscapeLineBreaksIsBytewise(s[1..]);
      var head := if s[0] == CR then EscapedCR else [s[0]];
      ReplaceAllAppend(head, ReplaceAll(s[1..], CR, EscapedCR), LF, EscapedLF);
      assert ReplaceAll(head, LF, EscapedLF) == EscapeByte(s[0]) by {
        if s[0] == CR {
          assert LF !in EscapedCR;
        } else if s[0] == LF {
          assert ReplaceAll([s[0]], LF, EscapedLF) == EscapedLF + ReplaceAll([], LF, EscapedLF);
        }
      }
    }
  }

  lemma {:induction false} ReplaceAllAppend(s: GoString, t: GoString, from: byte, to: GoString)
    ensures ReplaceAll(s + t, from, to) == ReplaceAll(s, from, to) + ReplaceAll(t, from, to)
  {
    if s == [] {
      assert s + t == t;
    } else {
      assert (s + t)[1..] == s[1..] + t;
      ReplaceAllAppend(s[1..], t, from, to);
    }
  }

  /** Escaping grows the text by exactly one byte per line break. */
  lemma {:induction false} EscapeLineBreaksLength(s: GoString)
    ensures |EscapeLineBreaks(s)| == |s| + Count(CR, s) + Count(LF, s)
  {
    EscapeLineBreaksIsBytewise(s);
    EscapeEachLength(s);
  }

  lemma {:induction false} EscapeEachLength(s: GoString)
    ensures |EscapeEach(s)| == |s| + Count(CR, s) + Count(LF, s)
  {
    if s != [] {
      EscapeEachLength(s[1..]);
    }
  }

  // ---------------------------------------------------------------------
  // Commands.JSONLabels

  /** The labels joined with a comma between each neighbouring pair. */
  function Join(qs: seq<GoString>): (r: GoString)
    ensures qs == [] ==> r == []
    ensures qs != [] ==> HasPrefix(r, qs[0])
    ensures |qs| == 1 ==> r == qs[0]
  {
    if |qs| == 0 then []
    else if |qs| == 1 then qs[0]
    else
      var r := qs[0] + [COMMA] + Join(qs[1..]);
      assert r[..|qs[0]|] == qs[0];
      r
  }

  /** Each key formatted with `%q`, in iteration order. */
  function QuotedAll(keys: seq<GoString>, quote: GoString -> GoString): (qs: seq<GoString>)
    ensures |qs| == |keys| && forall i :: 0 <= i < |keys| ==> qs[i] == quote(keys[i])
  {
    seq(|keys|, i requires 0 <= i < |keys| => quote(keys[i]))
  }

  /** The array text: the quoted keys joined by commas, in brackets. */
  function LabelArray(order: seq<GoString>, quote: GoString -> GoString): (r: GoString)
    ensures |r| >= 2 && r[0] == LBRACKET && r[|r| - 1] == RBRACKET
    ensures order == [] ==> r == [LBRACKET, RBRACKET]
    ensures order != [] ==> HasPrefix(r[1..], quote(order[0]))
  {
    [LBRACKET] + Join(QuotedAll(order, quote)) + [RBRACKET]
  }

  /** `order` is one iteration order of the map's keys: each key exactly once. */
  ghost predicate IsIterationOrder(order: seq<GoString>, keys: set<GoString>)
  {
    && (forall i, j :: 0 <= i < j < |order| ==> order[i] != order[j])
    && (forall k :: k in order <==> k in keys)
  }

  /**
   * `Commands.JSONLabels`: a JSON array of the quoted command names. Go's map
   * iteration order is unspecified; `order` is the one taken.
   */
  method JSONLabels(c: map<GoString, Command>, order: seq<GoString>, quote: GoString -> GoString)
    returns (r: GoString)
    requires IsIterationOrder(order, c.Keys)
    ensures r == LabelArray(order, quote)
    ensures |r| >= 2 && r[0] == LBRACKET && r[|r| - 1] == RBRACKET
    ensures |c| == 0 ==> r == [LBRACKET, RBRACKET]
  {
    r := [LBRACKET];
    var i := 0;
    for n := 0 to |order|
      invariant i == n
      invariant r == [LBRACKET] + Join(QuotedAll(order[..n], quote))
    {
      var lab := order[n];
      if i != 0 {
        r := r + [COMMA];
      }
      i := i + 1;
      JoinSnoc(QuotedAll(order[..n], quote), quote(lab));
      assert QuotedAll(order[..n + 1], quote) == QuotedAll(order[..n], quote) + [quote(lab)];
      r := r + quote(lab);
    }
    assert order[..|order|] == order;
    r := r + [RBRACKET];
    if order != [] {
      assert order[0] in c.Keys;
    }
  }

  /** Joining one more label adds a comma only if there was a label before. */
  lemma {:induction false} JoinSnoc(qs: seq<GoString>, q: GoString)
    ensures Join(qs + [q]) == if qs == [] then q else Join(qs) + [COMMA] + q
    decreases |qs|
  {
    if |qs| >= 2 {
      assert (qs + [q])[1..] == qs[1..] + [q];
      JoinSnoc(qs[1..], q);
    } else if |qs| == 1 {
      assert (qs + [q])[1..] == [q];
    }
  }

  /** With comma-free labels the array holds exactly n-1 commas for n labels. */
  lemma {:induction false} JoinCommaCount(qs: seq<GoString>)
    requires forall i :: 0 <= i < |qs| ==> COMMA !in qs[i]
    ensures Count(COMMA, Join(qs)) == if qs == [] then 0 else |qs| - 1
    decreases |qs|
  {
    if |qs| == 1 {
      CountAbsent(COMMA, qs[0]);
    } else if |qs| >= 2 {
      JoinCommaCount(qs[1..]);
      CountAbsent(COMMA, qs[0]);
      CountAppend(COMMA, qs[0], [COMMA]);
      CountAppend(COMMA, qs[0] + [COMMA], Join(qs[1..]));
    }
  }

  /** Index of the first `b` in `s`. */
  function IndexOf(s: GoString, b: byte): (i: nat)
    requires b in s
    ensures i < |s| && s[i] == b && b !in s[..i]
  {
    if s[0] == b then 0 else 1 + IndexOf(s[1..], b)
  }

  lemma {:induction false} IndexOfAfter(a: GoString, b: byte, t: GoString)
    requires b !in a
    ensures IndexOf(a + [b] + t, b) == |a|
  {
    if a != [] {
      assert (a + [b] + t)[1..] == a[1..] + [b] + t;
      IndexOfAfter(a[1..], b, t);
    }
  }

  /** `strings.Split(s, ",")`. */
  function Split(s: GoString): (parts: seq<GoString>)
    ensures |parts| >= 1
    decreases |s|
  {
    if COMMA !in s then [s]
    else
      var i := IndexOf(s, COMMA);
      [s[..i]] + Split(s[i + 1..])
  }

  /** Splitting the joined labels at the commas gives the labels back: each
      key contributes exactly one quoted label, in iteration order. */
  lemma {:induction false} SplitJoin(qs: seq<GoString>)
    requires qs != []
    requires forall i :: 0 <= i < |qs| ==> COMMA !in qs[i]
    ensures Split(Join(qs)) == qs
    decreases |qs|
  {
    if |qs| >= 2 {
      SplitCons(qs[0], Join(qs[1..]));
      SplitJoin(qs[1..]);
      assert qs == [qs[0]] + qs[1..];
    }
  }

  /** A comma-free first label is split off at the first comma. */
  lemma SplitCons(a: GoString, t: GoString)
    requires COMMA !in a
    ensures Split(a + [COMMA] + t) == [a] + Split(t)
  {
    var s := a + [COMMA] + t;
    assert s[|a|] == COMMA;
    IndexOfAfter(a, COMMA, t);
    assert s[..|a|] == a;
    assert s[|a| + 1..] == t;
  }

  /** The label array, read back: with comma-free quoted labels, the text
      between the brackets splits into exactly one quoted label per key, and
      an empty map gives `[]`. */
  lemma JSONLabelsShape(order: seq<GoString>, quote: GoString -> GoString)
    requires forall k :: k in order ==> COMMA !in quote(k)
    ensures order == [] ==> LabelArray(order, quote) == [LBRACKET, RBRACKET]
    ensures order != [] ==>
      var r := LabelArray(order, quote);
      Split(r[1..|r| - 1]) == QuotedAll(order, quote) && Count(COMMA, r) == |order| - 1
  {
    var qs := QuotedAll(order, quote);
    var r := LabelArray(order, quote);
    assert r[1..|r| - 1] == Join(qs);
    if order != [] {
      assert forall i :: 0 <= i < |qs| ==> COMMA !in qs[i] by {
        forall i | 0 <= i < |qs| ensures COMMA !in qs[i] {
          assert order[i] in order;
        }
      }
      SplitJoin(qs);
      JoinCommaCount(qs);
      CountAppend(COMMA, [LBRACKET], Join(qs));
      CountAppend(COMMA, [LBRACKET] + Join(qs), [RBRACKET]);
    }
  }
}
