/** What a Prisma query does to a table held in storage order: findFirst
    (first row matching a `where`), findMany/count (the matching rows),
    `orderBy: { key: 'desc' }`, `skip`/`take`, and the page count
    Math.ceil(total / limit) reported by the list endpoints. */
module Query {
  import opened Base

  /** Position of the first row satisfying `p`: findFirst / findUnique. */
  function IndexWhere<T>(s: seq<T>, p: T -> bool): (r: Option<nat>)
    ensures r.Some? ==> r.value < |s| && p(s[r.value])
    ensures r.Some? ==> forall j :: 0 <= j < r.value ==> !p(s[j])
    ensures r.None? <==> forall j :: 0 <= j < |s| ==> !p(s[j])
  {
    if |s| == 0 then None
    else if p(s[0]) then Some(0)
    else match IndexWhere(s[1..], p) {
      case None => None
      case Some(k) => Some(k + 1)
    }
  }

  /** The rows satisfying `p`, in storage order: findMany / count. */
  function Filter<T>(s: seq<T>, p: T -> bool): (r: seq<T>)
    ensures |r| <= |s|
    ensures forall i :: 0 <= i < |r| ==> p(r[i]) && r[i] in s
    ensures forall i :: 0 <= i < |s| && p(s[i]) ==> s[i] in r
  {
    if |s| == 0 then []
    else if p(s[0]) then [s[0]] + Filter(s[1..], p)
    else Filter(s[1..], p)
  }

  /** Rows are ordered newest (largest key) first. */
  ghost predicate SortedDesc<T>(s: seq<T>, key: T -> int) {
    forall i, j :: 0 <= i < j < |s| ==> key(s[i]) >= key(s[j])
  }

  /** Inserts `x` into a descending sequence, ahead of the rows whose key it equals or exceeds. */
  function Insert<T>(x: T, s: seq<T>, key: T -> int): seq<T> {
    if |s| == 0 || key(x) >= key(s[0]) then [x] + s
    else [s[0]] + Insert(x, s[1..], key)
  }

  /** `orderBy: { key: 'desc' }`; rows with equal keys keep storage order. */
  function SortDesc<T>(s: seq<T>, key: T -> int): seq<T> {
    if |s| == 0 then [] else Insert(s[0], SortDesc(s[1..], key), key)
  }

  lemma {:induction false} InsertKeeps<T>(x: T, s: seq<T>, key: T -> int)
    ensures multiset(Insert(x, s, key)) == multiset(s) + multiset{x}
    ensures SortedDesc(s, key) ==> SortedDesc(Insert(x, s, key), key)
  {
    if |s| == 0 || key(x) >= key(s[0]) {
    } else {
      InsertKeeps(x, s[1..], key);
      assert s == [s[0]] + s[1..];
      var t := Insert(x, s[1..], key);
      assert |t| > 0 && (t[0] == x || t[0] == s[1]);
    }
  }

  /** Sorting yields a descending permutation of the rows. */
  lemma {:induction false} SortDescCorrect<T>(s: seq<T>, key: T -> int)
    ensures SortedDesc(SortDesc(s, key), key)
    ensures multiset(SortDesc(s, key)) == multiset(s)
  {
    if |s| > 0 {
      SortDescCorrect(s[1..], key);
      InsertKeeps(s[0], SortDesc(s[1..], key), key);
      assert s == [s[0]] + s[1..];
    }
  }

  /** `findMany({ where, orderBy: { key: 'desc' } })`: the matching rows, largest key first. */
  function Ranked<T>(s: seq<T>, p: T -> bool, key: T -> int): seq<T> {
    SortDesc(Filter(s, p), key)
  }

  /** The ranked rows are exactly the matching rows, reordered. */
  lemma RankedCorrect<T>(s: seq<T>, p: T -> bool, key: T -> int)
    ensures SortedDesc(Ranked(s, p, key), key)
    ensures |Ranked(s, p, key)| == |Filter(s, p)|
    ensures forall i :: 0 <= i < |Ranked(s, p, key)| ==> p(Ranked(s, p, key)[i]) && Ranked(s, p, key)[i] in s
    ensures forall j :: 0 <= j < |s| && p(s[j]) ==> s[j] in Ranked(s, p, key)
  {
    var f := Filter(s, p);
    var r := Ranked(s, p, key);
    SortDescCorrect(f, key);
    assert |multiset(r)| == |multiset(f)|;
    forall i | 0 <= i < |r| ensures p(r[i]) && r[i] in s {
      assert r[i] in multiset(r);
    }
    forall j | 0 <= j < |s| && p(s[j]) ensures s[j] in r {
      assert s[j] in multiset(f);
    }
  }

  /** `take: k` after ranking: as many rows as there are matches, up to k;
      all of them when there are no more than k; and no matching row left
      out outranks a row shown. */
  lemma TopRanked<T>(s: seq<T>, p: T -> bool, key: T -> int, k: nat)
    ensures |PageOf(Ranked(s, p, key), 0, k)| == Min(k, |Filter(s, p)|)
    ensures k >= |Filter(s, p)| ==> forall j :: 0 <= j < |s| && p(s[j]) ==> s[j] in PageOf(Ranked(s, p, key), 0, k)
    ensures forall j :: 0 <= j < |s| && p(s[j]) && s[j] !in PageOf(Ranked(s, p, key), 0, k) ==>
              forall i :: 0 <= i < |PageOf(Ranked(s, p, key), 0, k)| ==>
                key(PageOf(Ranked(s, p, key), 0, k)[i]) >= key(s[j])
  {
    var r := Ranked(s, p, key);
    var top := PageOf(r, 0, k);
    RankedCorrect(s, p, key);
    forall j | 0 <= j < |s| && p(s[j]) && s[j] !in top
      ensures forall i :: 0 <= i < |top| ==> key(top[i]) >= key(s[j])
    {
      var m :| 0 <= m < |r| && r[m] == s[j];
      assert forall i :: 0 <= i < |top| ==> top[i] == r[i];
      assert |top| <= m;
    }
    if k >= |Filter(s, p)| {
      assert top == r;
    }
  }

  /** A window of a descending sequence is descending and holds its rows. */
  lemma {:induction false} PageOfSorted<T>(s: seq<T>, key: T -> int, skip: nat, take: nat)
    ensures forall i :: 0 <= i < |PageOf(s, skip, take)| ==> PageOf(s, skip, take)[i] in s
    ensures SortedDesc(s, key) ==> SortedDesc(PageOf(s, skip, take), key)
  {
    var page := PageOf(s, skip, take);
    forall i | 0 <= i < |page| ensures page[i] in s {
      assert page[i] == s[skip + i];
    }
    if SortedDesc(s, key) {
      forall i, j | 0 <= i < j < |page| ensures key(page[i]) >= key(page[j]) {
        assert page[i] == s[skip + i] && page[j] == s[skip + j];
      }
    }
  }

  /** A page of a ranking holds matching rows only, still in rank order. */
  lemma RankedPage<T>(s: seq<T>, p: T -> bool, key: T -> int, limit: nat, n: nat)
    ensures forall i :: 0 <= i < |NthPage(Ranked(s, p, key), limit, n)| ==>
              p(NthPage(Ranked(s, p, key), limit, n)[i]) && NthPage(Ranked(s, p, key), limit, n)[i] in s
    ensures SortedDesc(NthPage(Ranked(s, p, key), limit, n), key)
  {
    RankedCorrect(s, p, key);
    if n > 0 {
      var r := Ranked(s, p, key);
      PageOfSorted(r, key, (n - 1) * limit, limit);
      var page := NthPage(r, limit, n);
      forall i | 0 <= i < |page| ensures p(page[i]) && page[i] in s {
        assert page[i] in r;
      }
    }
  }

  /** Every row lies on one of pages 1 to Math.ceil(|s| / limit). */
  lemma {:induction false} OnSomePage<T>(s: seq<T>, limit: nat, m: nat)
    requires limit > 0 && m < |s|
    ensures exists n :: 1 <= n <= CeilDiv(|s|, limit) && s[m] in NthPage(s, limit, n)
  {
    if m < limit {
      assert NthPage(s, limit, 1)[m] == s[m];
    } else {
      var t := s[limit..];
      OnSomePage(t, limit, m - limit);
      var n :| 1 <= n <= CeilDiv(|t|, limit) && t[m - limit] in NthPage(t, limit, n);
      NextPage(s, limit, n);
      assert 1 <= n + 1 <= CeilDiv(|s|, limit) && s[m] in NthPage(s, limit, n + 1);
    }
  }

  /** Every matching row is on one of the pages of its ranking. */
  lemma RankedOnSomePage<T>(s: seq<T>, p: T -> bool, key: T -> int, limit: nat, k: nat)
    requires limit > 0 && k < |s| && p(s[k])
    ensures exists n :: 1 <= n <= CeilDiv(|Ranked(s, p, key)|, limit) && s[k] in NthPage(Ranked(s, p, key), limit, n)
  {
    var r := Ranked(s, p, key);
    RankedCorrect(s, p, key);
    var m :| 0 <= m < |r| && r[m] == s[k];
    OnSomePage(r, limit, m);
  }

  /** Page n + 1 of a table is page n of the table without its first page. */
  lemma NextPage<T>(s: seq<T>, limit: nat, n: nat)
    requires limit > 0 && n >= 1 && |s| >= limit
    ensures NthPage(s, limit, n + 1) == NthPage(s[limit..], limit, n)
  {
    var skip := (n - 1) * limit;
    assert n * limit == skip + limit;
  }

  function Min(a: int, b: int): int {
    if a <= b then a else b
  }

  /** `skip`/`take`: the rows from position `skip` on, at most `take` of them. */
  function PageOf<T>(s: seq<T>, skip: nat, take: nat): (r: seq<T>)
    ensures |r| <= take
    ensures |r| == if skip >= |s| then 0 else Min(take, |s| - skip)
    ensures forall i :: 0 <= i < |r| ==> r[i] == s[skip + i]
  {
    if skip >= |s| then [] else s[skip..Min(skip + take, |s|)]
  }

  /** Math.ceil(total / limit) for a positive limit. */
  function CeilDiv(total: nat, limit: nat): (r: nat)
    requires limit > 0
    ensures total <= r * limit
    ensures r == 0 || (r - 1) * limit < total
  {
    if total == 0 then 0 else 1 + CeilDiv(if total <= limit then 0 else total - limit, limit)
  }

  /** The `pages` of a listing: Math.ceil(total / limit), which is
      Infinity or NaN, rendered by JSON as null, when limit is 0. */
  function PageCount(total: nat, limit: nat): (r: Option<nat>)
    ensures r.None? <==> limit == 0
  {
    if limit == 0 then None else Some(CeilDiv(total, limit))
  }

  /** Page n (counting from 1) of size `limit`: skip (n - 1) * limit, take limit. */
  function NthPage<T>(s: seq<T>, limit: nat, n: nat): seq<T> {
    if n == 0 then [] else PageOf(s, (n - 1) * limit, limit)
  }

  /** Page n holds the rows from position (n - 1) * limit on, as many as
      remain up to `limit`; page 0 is empty. */
  lemma NthPageWindow<T>(s: seq<T>, limit: nat, n: nat)
    ensures |NthPage(s, limit, n)| <= limit
    ensures n == 0 ==> NthPage(s, limit, n) == []
    ensures n > 0 ==> |NthPage(s, limit, n)| == if (n - 1) * limit >= |s| then 0 else Min(limit, |s| - (n - 1) * limit)
    ensures n > 0 ==> forall i :: 0 <= i < |NthPage(s, limit, n)| ==> NthPage(s, limit, n)[i] == s[(n - 1) * limit + i]
  {
  }

  /** Pages 1..n of size `limit`, one after the other. */
  function Paged<T>(s: seq<T>, limit: nat, n: nat): seq<T> {
    if n == 0 then [] else Paged(s, limit, n - 1) + NthPage(s, limit, n)
  }

  lemma {:induction false} PagedPrefix<T>(s: seq<T>, limit: nat, n: nat)
    ensures Paged(s, limit, n) == s[..Min(n * limit, |s|)]
  {
    if n > 0 {
      PagedPrefix(s, limit, n - 1);
      assert (n - 1) * limit + limit == n * limit;
      if (n - 1) * limit < |s| {
        assert s[..Min(n * limit, |s|)]
            == s[..(n - 1) * limit] + s[(n - 1) * limit..Min(n * limit, |s|)];
      }
    }
  }

  /** Walking pages 1 to Math.ceil(total / limit) lists every row once, in order. */
  lemma PagesCoverAll<T>(s: seq<T>, limit: nat)
    requires limit > 0
    ensures Paged(s, limit, CeilDiv(|s|, limit)) == s
  {
    PagedPrefix(s, limit, CeilDiv(|s|, limit));
  }
}
