/** The date-range listing of enquiries: an enquiry is listed when it or any
    of its history entries was updated inside the closed range
    `[start, end]` (the handler widens the requested days to their first and
    last millisecond before this point). */
module EnquiryQuery {
  import opened EnquiryModel

  predicate InRange(t: int, start: int, end: int) {
    start <= t <= end
  }

  /** The listing condition, shared by the database query and the in-memory
      filter. */
  predicate UpdatedInRange(e: Enquiry, start: int, end: int) {
    InRange(e.updatedAt, start, end)
    || exists i :: 0 <= i < |e.history| && InRange(e.history[i].updatedAt, start, end)
  }

  /** `a` is `b` with some elements left out and the rest in their order. */
  predicate IsSubsequence<T(==)>(a: seq<T>, b: seq<T>)
    decreases |b|
  {
    if |a| == 0 then true
    else if |b| == 0 then false
    else if a[0] == b[0] then IsSubsequence(a[1..], b[1..])
    else IsSubsequence(a, b[1..])
  }

  /** The enquiries of `es` updated in range, in their original order; each
      one is listed as often as it occurs in `es`. */
  function FilterEnquiries(es: seq<Enquiry>, start: int, end: int): (r: seq<Enquiry>)
    ensures IsSubsequence(r, es)
    ensures forall e :: e in r ==> e in es && UpdatedInRange(e, start, end)
    ensures forall e :: e in es && UpdatedInRange(e, start, end) ==> e in r
    ensures forall e :: multiset(r)[e] == (if UpdatedInRange(e, start, end) then multiset(es)[e] else 0)
    ensures |r| <= |es|
  {
    if |es| == 0 then []
    else
      var rest := FilterEnquiries(es[1..], start, end);
      assert es == [es[0]] + es[1..];
      assert multiset(es) == multiset{es[0]} + multiset(es[1..]);
      if UpdatedInRange(es[0], start, end) then
        assert ([es[0]] + rest)[1..] == rest;
        [es[0]] + rest
      else
        SkipHead(rest, es);
        rest
  }

  /** Putting one more element in front of the longer sequence keeps a
      subsequence a subsequence. */
  lemma SkipHead<T>(a: seq<T>, b: seq<T>)
    requires |b| > 0 && IsSubsequence(a, b[1..])
    ensures IsSubsequence(a, b)
    decreases |b|, |a|
  {
    if |a| > 0 && a[0] == b[0] {
      if |b| > 1 {
        SubsequenceTail(a, b[1..]);
      }
    }
  }

  /** Dropping the first element of a subsequence keeps it a subsequence. */
  lemma SubsequenceTail<T>(a: seq<T>, b: seq<T>)
    requires |a| > 0 && IsSubsequence(a, b)
    ensures IsSubsequence(a[1..], b)
    decreases |b|, |a|
  {
    if |b| > 0 && a[0] != b[0] {
      SubsequenceTail(a, b[1..]);
      SkipHead(a[1..], b);
    } else if |b| > 0 {
      SkipHead(a[1..], b);
    }
  }

  /** The listing over the documents the query returned: since the query
      already applied the same condition, the in-memory filter keeps every
      one of them, and filtering again changes nothing. */
  lemma {:induction false} FilterKeepsQueryResults(es: seq<Enquiry>, start: int, end: int)
    requires forall i :: 0 <= i < |es| ==> UpdatedInRange(es[i], start, end)
    ensures FilterEnquiries(es, start, end) == es
  {
    if |es| > 0 {
      FilterKeepsQueryResults(es[1..], start, end);
    }
  }

  /** Filtering is idempotent. */
  lemma FilterIdempotent(es: seq<Enquiry>, start: int, end: int)
    ensures FilterEnquiries(FilterEnquiries(es, start, end), start, end) == FilterEnquiries(es, start, end)
  {
    var r := FilterEnquiries(es, start, end);
    FilterKeepsQueryResults(r, start, end);
  }
}
