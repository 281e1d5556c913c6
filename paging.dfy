/**
 * Pagination of the members table: five members per page, page numbers
 * starting at 1, and the number of pages `Math.ceil(total / 5)`.
 */
module Paging {

  const MembersPerPage: nat := 5

  /** `Math.ceil(total / MembersPerPage)`. */
  function TotalPages(total: nat): (r: nat)
    ensures r * MembersPerPage >= total
    ensures r == 0 || (r - 1) * MembersPerPage < total
  {
    (total + MembersPerPage - 1) / MembersPerPage
  }

  /** `Array.prototype.slice(start, end)` for non-negative bounds: clamped to the
      sequence, and empty when `start` is at or past `end` or the end of `s`. */
  function Slice<T>(s: seq<T>, start: nat, end: nat): seq<T> {
    if start >= end || start >= |s| then []
    else s[start..if end < |s| then end else |s|]
  }

  /** The members shown on page `page`: positions `(page - 1) * 5` up to `page * 5`. */
  function PageOf<T>(s: seq<T>, page: nat): (r: seq<T>)
    requires page >= 1
    ensures |r| <= MembersPerPage
    ensures |r| == if page * MembersPerPage <= |s| then MembersPerPage
                   else if (page - 1) * MembersPerPage < |s| then |s| - (page - 1) * MembersPerPage
                   else 0
    ensures forall k :: 0 <= k < |r| ==> r[k] == s[(page - 1) * MembersPerPage + k]
  {
    Slice(s, (page - 1) * MembersPerPage, page * MembersPerPage)
  }

  /** A page shows something exactly when its number is at most the page count. */
  lemma PageNonEmptyIff<T>(s: seq<T>, page: nat)
    requires page >= 1
    ensures PageOf(s, page) != [] <==> page <= TotalPages(|s|)
  {
  }

  /** The pages 1..k laid end to end. */
  function PagesUpTo<T>(s: seq<T>, k: nat): seq<T> {
    if k == 0 then [] else PagesUpTo(s, k - 1) + PageOf(s, k)
  }

  lemma {:induction false} PagesUpToPrefix<T>(s: seq<T>, k: nat)
    ensures PagesUpTo(s, k) == s[..if k * MembersPerPage <= |s| then k * MembersPerPage else |s|]
  {
    if k > 0 {
      PagesUpToPrefix(s, k - 1);
      var lo := if (k - 1) * MembersPerPage <= |s| then (k - 1) * MembersPerPage else |s|;
      var hi := if k * MembersPerPage <= |s| then k * MembersPerPage else |s|;
      assert PageOf(s, k) == s[lo..hi];
      assert s[..lo] + s[lo..hi] == s[..hi];
    }
  }

  /** Paging loses and repeats nothing: pages 1..TotalPages, concatenated, are
      the whole list. */
  lemma PagesCoverList<T>(s: seq<T>)
    ensures PagesUpTo(s, TotalPages(|s|)) == s
  {
    PagesUpToPrefix(s, TotalPages(|s|));
  }
}
