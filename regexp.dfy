/**
 * Go's `*regexp.Regexp`, as far as this system uses it. The matching engine
 * is abstract: a pattern is its source text and a `locate` function giving
 * the leftmost match as a span of the subject. `Find` and `Match` are the
 * two views of that one search, so `Match` holds exactly when `Find` yields
 * a piece of the subject.
 */
module Regexp {
  import opened Text

  datatype Span = Span(start: nat, end: nat)

  datatype Regex = Regex(source: GoString, locate: GoString -> Option<Span>)
  {
    /** `(*Regexp).Find`: the leftmost match, a contiguous piece of `b`. A span
        outside the subject is read as no match. */
    function Find(b: GoString): (r: Option<GoString>)
      ensures r.Some? ==> IsInfix(r.value, b)
    {
      match locate(b)
      case Some(sp) =>
        if sp.start <= sp.end <= |b| then Some(b[sp.start..sp.end]) else None
      case None => None
    }

    /** `(*Regexp).Match` and `MatchString`: the pattern matches somewhere in `b`. */
    predicate Match(b: GoString)
    {
      locate(b).Some? && locate(b).value.start <= locate(b).value.end <= |b|
    }

    lemma MatchIffFind(b: GoString)
      ensures Match(b) <==> Find(b).Some?
    {
    }
  }
}
