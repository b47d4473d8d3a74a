/** Go strings and byte slices: both are sequences of bytes. */
module Text {

  newtype byte = b: int | 0 <= b < 256

  /** A Go `string` or `[]byte`; Go strings are immutable byte sequences. */
  type GoString = seq<byte>

  datatype Option<+T> = None | Some(value: T)

  const CR: byte := '\r' as byte
  const LF: byte := '\n' as byte
  const BACKSLASH: byte := '\\' as byte
  const PERCENT: byte := '%' as byte
  const BANG: byte := '!' as byte
  const COMMA: byte := ',' as byte
  const LBRACKET: byte := '[' as byte
  const RBRACKET: byte := ']' as byte

  /** `strings.HasPrefix(s, pat)`. */
  predicate HasPrefix(s: GoString, pat: GoString)
  {
    |pat| <= |s| && s[..|pat|] == pat
  }

  /** `strings.Contains(s, pat)`: `pat` starts at some offset of `s`. */
  predicate Contains(s: GoString, pat: GoString)
    decreases |s|
  {
    HasPrefix(s, pat) || (s != [] && Contains(s[1..], pat))
  }

  /** `t` is a contiguous piece of `s`. */
  ghost predicate IsInfix(t: GoString, s: GoString)
  {
    exists i, j | 0 <= i <= j <= |s| :: t == s[i..j]
  }

  /** `Contains` agrees with the declarative reading: `pat` is a piece of `s`. */
  lemma {:induction false} ContainsIffInfix(s: GoString, pat: GoString)
    ensures Contains(s, pat) <==> IsInfix(pat, s)
    decreases |s|
  {
    InfixUnfold(s, pat);
    if s != [] {
      ContainsIffInfix(s[1..], pat);
    }
  }

  lemma InfixUnfold(s: GoString, pat: GoString)
    ensures IsInfix(pat, s) <==> HasPrefix(s, pat) || (s != [] && IsInfix(pat, s[1..]))
  {
    if IsInfix(pat, s) {
      InfixCases(s, pat);
    }
    if HasPrefix(s, pat) {
      assert pat == s[0..|pat|];
    }
    if s != [] && IsInfix(pat, s[1..]) {
      InfixOfTail(s, pat);
    }
  }

  lemma InfixCases(s: GoString, pat: GoString)
    requires IsInfix(pat, s)
    ensures HasPrefix(s, pat) || (s != [] && IsInfix(pat, s[1..]))
  {
    var i, j :| 0 <= i <= j <= |s| && pat == s[i..j];
    if i == 0 {
      assert s[..|pat|] == pat;
    } else {
      assert pat == s[1..][i - 1..j - 1];
    }
  }

  lemma InfixOfTail(s: GoString, pat: GoString)
    requires s != [] && IsInfix(pat, s[1..])
    ensures IsInfix(pat, s)
  {
    var i, j :| 0 <= i <= j <= |s[1..]| && pat == s[1..][i..j];
    assert pat == s[i + 1..j + 1];
  }

  /** Number of occurrences of the byte `b` in `s`. */
  function Count(b: byte, s: GoString): nat
  {
    if s == [] then 0 else (if s[0] == b then 1 else 0) + Count(b, s[1..])
  }

  lemma {:induction false} CountAppend(b: byte, s: GoString, t: GoString)
    ensures Count(b, s + t) == Count(b, s) + Count(b, t)
  {
    if s == [] {
      assert s + t == t;
    } else {
      assert (s + t)[1..] == s[1..] + t;
      CountAppend(b, s[1..], t);
    }
  }

  lemma {:induction false} CountAbsent(b: byte, s: GoString)
    ensures Count(b, s) == 0 <==> b !in s
  {
    if s != [] {
      CountAbsent(b, s[1..]);
      assert s == [s[0]] + s[1..];
    }
  }
}
