// Demand paging in the abstract: traces of page numbers, schedules of resident
// sets, and the number of faults a schedule takes.
module Paging {

  // One request is served when the page is resident afterwards, memory is not
  // overcommitted, and no page other than the requested one was brought in.
  ghost predicate Serves(k: nat, page: int, before: set<int>, after: set<int>) {
    && page in after
    && |after| <= k
    && after <= before + {page}
  }

  // residents[i] is what is in memory just before request i.
  ghost predicate Schedule(t: seq<int>, k: nat, residents: seq<set<int>>) {
    && |residents| == |t| + 1
    && residents[0] == {}
    && forall i :: 0 <= i < |t| ==> Serves(k, t[i], residents[i], residents[i + 1])
  }

  ghost function Miss(page: int, resident: set<int>): nat {
    if page in resident then 0 else 1
  }

  // Faults among the first n requests.
  ghost function Faults(t: seq<int>, residents: seq<set<int>>, n: nat): nat
    requires n <= |t| <= |residents|
  {
    if n == 0 then 0
    else Faults(t, residents, n - 1) + Miss(t[n - 1], residents[n - 1])
  }

  // Position of the first request for page at or after i, or |t| if there is none.
  function NextUse(t: seq<int>, i: nat, page: int): (j: nat)
    requires i <= |t|
    ensures i <= j <= |t|
    ensures j < |t| ==> t[j] == page
    ensures forall h :: i <= h < j ==> t[h] != page
    decreases |t| - i
  {
    if i == |t| || t[i] == page then i else NextUse(t, i + 1, page)
  }

  // Position just after the last request for page before n, or 0 if there is none.
  function LastUse(t: seq<int>, n: nat, page: int): (j: nat)
    requires n <= |t|
    ensures j <= n
    ensures j > 0 ==> t[j - 1] == page
    ensures forall h :: j <= h < n ==> t[h] != page
  {
    if n == 0 || t[n - 1] == page then n else LastUse(t, n - 1, page)
  }
}
