/**
 * The slice of Spring Data paging both services use: `PageRequest.of(page,
 * size)` and the content of the requested page of an id-ordered table.
 */
module Paging {

  function Min(a: int, b: int): int {
    if a <= b then a else b
  }

  /** `PageRequest.of` throws for a negative page index or a size below one. */
  predicate IsValidPageRequest(page: int, size: int) {
    page >= 0 && size >= 1
  }

  /** The content of page `page` of `size` items: the items from offset `page * size` on, at most `size` of them. */
  function PageOf<T>(all: seq<T>, page: int, size: int): (r: seq<T>)
    requires IsValidPageRequest(page, size)
    ensures |r| == if page * size >= |all| then 0 else Min(size, |all| - page * size)
    ensures forall i :: 0 <= i < |r| ==> r[i] == all[page * size + i]
  {
    assert 0 <= page * size;
    var lo := Min(page * size, |all|);
    all[lo..Min(lo + size, |all|)]
  }

  /** A strictly increasing sequence of keys. */
  predicate Increasing(ks: seq<int>) {
    forall i, j :: 0 <= i < j < |ks| ==> ks[i] < ks[j]
  }

  /** The keys of `m` in the range [lo, hi), in ascending order: the order in which a table keyed by a generated identity is read back. */
  function KeysInOrder<V>(m: map<int, V>, lo: int, hi: int): (ks: seq<int>)
    decreases hi - lo
    ensures forall i :: 0 <= i < |ks| ==> ks[i] in m && lo <= ks[i] < hi
    ensures Increasing(ks)
  {
    if lo >= hi then []
    else if lo in m then [lo] + KeysInOrder(m, lo + 1, hi)
    else KeysInOrder(m, lo + 1, hi)
  }

  /** No key of `m` in the range is left out of the listing. */
  lemma {:induction false} KeysInOrderIsComplete<V>(m: map<int, V>, lo: int, hi: int, k: int)
    requires lo <= k < hi && k in m
    ensures k in KeysInOrder(m, lo, hi)
    decreases hi - lo
  {
    if k != lo {
      KeysInOrderIsComplete(m, lo + 1, hi, k);
    }
  }

  /** The values stored under `ids`, in the order of `ids`: the rows a page of keys reads back. */
  function RowsAt<V>(m: map<int, V>, ids: seq<int>): (r: seq<V>)
    requires forall i :: 0 <= i < |ids| ==> ids[i] in m
    ensures |r| == |ids| && forall i :: 0 <= i < |ids| ==> r[i] == m[ids[i]]
  {
    seq(|ids|, i requires 0 <= i < |ids| => m[ids[i]])
  }

  /** The values on page `page` of the keys `ks`: the rows a paged query over that key order returns. */
  function PageRows<V>(m: map<int, V>, ks: seq<int>, page: int, size: int): (r: seq<V>)
    requires IsValidPageRequest(page, size)
    requires forall i :: 0 <= i < |ks| ==> ks[i] in m
    ensures |r| == if page * size >= |ks| then 0 else Min(size, |ks| - page * size)
    ensures forall i :: 0 <= i < |r| ==> r[i] == m[ks[page * size + i]]
  {
    assert 0 <= page * size;
    RowsAt(m, PageOf(ks, page, size))
  }
}
