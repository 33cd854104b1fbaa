/** Log entries with their index, and the stable sort by index that every
    verifier applies before it reads them. */
module Entries {

  datatype Indexed<T> = Indexed(index: int, bytes: T)

  /** In index order. */
  ghost predicate Sorted<T>(es: seq<Indexed<T>>) {
    |es| > 1 ==> es[0].index <= es[1].index && Sorted(es[1..])
  }

  /** No two entries share an index; a property of the entries, not of their order. */
  ghost predicate DistinctIndexes<T(!new)>(es: multiset<Indexed<T>>) {
    forall x, y | x in es && y in es && x.index == y.index :: x == y && es[x] == 1
  }

  /** `slice().sort((a, b) => a.index - b.index)`: stable, by insertion from the right. */
  function SortByIndex<T>(es: seq<Indexed<T>>): (s: seq<Indexed<T>>)
    ensures Sorted(s) && |s| == |es|
  {
    if es == [] then [] else Insert(es[0], SortByIndex(es[1..]))
  }

  function Insert<T>(e: Indexed<T>, es: seq<Indexed<T>>): (s: seq<Indexed<T>>)
    requires Sorted(es)
    ensures Sorted(s) && |s| == |es| + 1
    ensures s[0] == e || (es != [] && s[0] == es[0])
  {
    if es == [] || e.index <= es[0].index then [e] + es else [es[0]] + Insert(e, es[1..])
  }

  lemma {:induction false} InsertKeeps<T>(e: Indexed<T>, es: seq<Indexed<T>>)
    requires Sorted(es)
    ensures multiset(Insert(e, es)) == multiset{e} + multiset(es)
  {
    if es == [] || e.index <= es[0].index {
    } else {
      InsertKeeps(e, es[1..]);
      assert es == [es[0]] + es[1..];
    }
  }

  lemma {:induction false} SortKeeps<T>(es: seq<Indexed<T>>)
    ensures multiset(SortByIndex(es)) == multiset(es)
  {
    if es != [] {
      SortKeeps(es[1..]);
      InsertKeeps(es[0], SortByIndex(es[1..]));
      assert es == [es[0]] + es[1..];
    }
  }

  lemma {:induction false} HeadIsLeast<T>(es: seq<Indexed<T>>, e: Indexed<T>)
    requires Sorted(es) && e in es
    ensures es[0].index <= e.index
  {
    if e != es[0] {
      HeadIsLeast(es[1..], e);
    }
  }

  /** Sorted entries with distinct indexes are determined by what they contain. */
  lemma {:induction false} SortedUnique<T(!new)>(a: seq<Indexed<T>>, b: seq<Indexed<T>>)
    requires Sorted(a) && Sorted(b) && multiset(a) == multiset(b) && DistinctIndexes(multiset(a))
    ensures a == b
    decreases |a|
  {
    assert |a| == |multiset(a)| == |multiset(b)| == |b|;
    if a != [] {
      assert a[0] in multiset(b) && b[0] in multiset(a);
      HeadIsLeast(a, b[0]);
      HeadIsLeast(b, a[0]);
      assert a[0] == b[0];
      TailMultiset(a);
      TailMultiset(b);
      SortedUnique(a[1..], b[1..]);
    }
  }

  lemma TailMultiset<T>(a: seq<T>)
    requires a != []
    ensures multiset(a[1..]) == multiset(a) - multiset{a[0]}
  {
    assert a == [a[0]] + a[1..];
  }

  /** The order in which entries arrive does not matter when their indexes differ. */
  lemma SortPermuted<T(!new)>(a: seq<Indexed<T>>, b: seq<Indexed<T>>)
    requires multiset(a) == multiset(b) && DistinctIndexes(multiset(a))
    ensures SortByIndex(a) == SortByIndex(b)
  {
    SortKeeps(a);
    SortKeeps(b);
    SortedUnique(SortByIndex(a), SortByIndex(b));
  }

  // ---- Filtering and removing ----

  /** The entries that satisfy p, in order. */
  function Keep<T>(es: seq<Indexed<T>>, p: Indexed<T> -> bool): (s: seq<Indexed<T>>)
    ensures |s| <= |es|
  {
    if es == [] then []
    else if p(es[0]) then [es[0]] + Keep(es[1..], p)
    else Keep(es[1..], p)
  }

  lemma SortedCons<T>(e: Indexed<T>, es: seq<Indexed<T>>)
    requires Sorted(es) && (es == [] || e.index <= es[0].index)
    ensures Sorted([e] + es)
  {
    assert ([e] + es)[1..] == es;
  }

  lemma {:induction false} KeepSorted<T>(es: seq<Indexed<T>>, p: Indexed<T> -> bool)
    requires Sorted(es)
    ensures Sorted(Keep(es, p))
    ensures Keep(es, p) != [] ==> es[0].index <= Keep(es, p)[0].index
  {
    if es != [] {
      KeepSorted(es[1..], p);
      if p(es[0]) {
        SortedCons(es[0], Keep(es[1..], p));
      }
    }
  }

  lemma InsertFirst<T>(e: Indexed<T>, es: seq<Indexed<T>>)
    requires Sorted(es) && (es == [] || e.index <= es[0].index)
    ensures Insert(e, es) == [e] + es
  {
  }

  lemma InsertLater<T>(e: Indexed<T>, x: Indexed<T>, es: seq<Indexed<T>>)
    requires Sorted(es) && (es == [] || x.index <= es[0].index) && x.index < e.index
    ensures Sorted([x] + es) && Insert(e, [x] + es) == [x] + Insert(e, es)
  {
    SortedCons(x, es);
    assert ([x] + es)[1..] == es;
  }

  lemma KeepCons<T>(e: Indexed<T>, es: seq<Indexed<T>>, p: Indexed<T> -> bool)
    ensures Keep([e] + es, p) == if p(e) then [e] + Keep(es, p) else Keep(es, p)
  {
    assert ([e] + es)[1..] == es;
  }

  lemma {:induction false} KeepInsert<T>(e: Indexed<T>, es: seq<Indexed<T>>, p: Indexed<T> -> bool)
    requires Sorted(es)
    ensures Sorted(Keep(es, p))
    ensures Keep(Insert(e, es), p) == if p(e) then Insert(e, Keep(es, p)) else Keep(es, p)
  {
    hide Keep, Insert;
    KeepSorted(es, p);
    if es == [] || e.index <= es[0].index {
      InsertFirst(e, es);
      KeepCons(e, es, p);
      InsertFirst(e, Keep(es, p));
    } else {
      var x, rest := es[0], es[1..];
      assert es == [x] + rest;
      InsertLater(e, x, rest);
      KeepInsert(e, rest, p);
      KeepCons(x, Insert(e, rest), p);
      KeepCons(x, rest, p);
      if p(x) {
        KeepSorted(rest, p);
        InsertLater(e, x, Keep(rest, p));
      }
    }
  }

  /** Sorting and filtering commute. */
  lemma {:induction false} SortKeep<T>(es: seq<Indexed<T>>, p: Indexed<T> -> bool)
    ensures SortByIndex(Keep(es, p)) == Keep(SortByIndex(es), p)
  {
    hide Insert;
    if es != [] {
      SortKeep(es[1..], p);
      KeepInsert(es[0], SortByIndex(es[1..]), p);
      if p(es[0]) {
        assert Keep(es, p)[0] == es[0] && Keep(es, p)[1..] == Keep(es[1..], p);
      }
    }
  }

  lemma {:induction false} KeepAll<T>(es: seq<Indexed<T>>, p: Indexed<T> -> bool)
    requires forall e :: e in es ==> p(e)
    ensures Keep(es, p) == es
  {
    if es != [] {
      KeepAll(es[1..], p);
    }
  }

  lemma {:induction false} KeepNone<T>(es: seq<Indexed<T>>, p: Indexed<T> -> bool)
    requires forall e :: e in es ==> !p(e)
    ensures Keep(es, p) == []
  {
    if es != [] {
      KeepNone(es[1..], p);
    }
  }

  lemma {:induction false} KeepLast<T>(es: seq<Indexed<T>>, p: Indexed<T> -> bool)
    requires es != []
    ensures
      var last := |es| - 1;
      Keep(es, p) == Keep(es[..last], p) + (if p(es[last]) then [es[last]] else [])
  {
    if |es| > 1 {
      KeepLast(es[1..], p);
      var last := |es| - 1;
      assert es[1..][..last - 1] == es[..last][1..];
    }
  }

  /** The number of entries of a sorted list up to an index. */
  function UpTo<T>(es: seq<Indexed<T>>, cutoff: int): (k: nat)
    ensures k <= |es|
  {
    if es == [] || es[0].index > cutoff then 0 else 1 + UpTo(es[1..], cutoff)
  }

  /** In a sorted list the entries up to an index are a prefix. */
  lemma {:induction false} KeepUpTo<T>(es: seq<Indexed<T>>, cutoff: int)
    requires Sorted(es)
    ensures Keep(es, (e: Indexed<T>) => e.index <= cutoff) == es[..UpTo(es, cutoff)]
    ensures forall i :: 0 <= i < |es| ==> (es[i].index <= cutoff <==> i < UpTo(es, cutoff))
  {
    if es != [] {
      if es[0].index <= cutoff {
        KeepUpTo(es[1..], cutoff);
        forall i | 0 <= i < |es| ensures es[i].index <= cutoff <==> i < UpTo(es, cutoff) {
          assert i > 0 ==> es[i] == es[1..][i - 1];
        }
      } else {
        forall e | e in es ensures e.index > cutoff {
          HeadIsLeast(es, e);
        }
        KeepNone(es, (e: Indexed<T>) => e.index <= cutoff);
      }
    }
  }

  lemma {:induction false} SortedPair<T>(es: seq<Indexed<T>>, i: nat, j: nat)
    requires Sorted(es) && i <= j < |es|
    ensures es[i].index <= es[j].index
  {
    if i > 0 {
      SortedPair(es[1..], i - 1, j - 1);
    } else if j > 0 {
      HeadIsLeast(es, es[j]);
    }
  }

  /** Filtering a list in two parts. */
  lemma {:induction false} KeepParts<T>(es: seq<Indexed<T>>, i: nat, p: Indexed<T> -> bool)
    requires i <= |es|
    ensures Keep(es, p) == Keep(es[..i], p) + Keep(es[i..], p)
    decreases |es| - i
  {
    if i == |es| {
      assert es[..i] == es;
    } else {
      KeepParts(es, i + 1, p);
      KeepLast(es[..i + 1], p);
      assert es[..i + 1][..i] == es[..i] && es[i..][1..] == es[i + 1..];
    }
  }

  lemma {:induction false} KeepMember<T>(es: seq<Indexed<T>>, p: Indexed<T> -> bool, e: Indexed<T>)
    ensures e in Keep(es, p) <==> e in es && p(e)
  {
    if es != [] {
      KeepMember(es[1..], p, e);
      assert es == [es[0]] + es[1..];
    }
  }

  /** Filters that agree on every entry keep the same. */
  lemma {:induction false} KeepSame<T>(es: seq<Indexed<T>>, p: Indexed<T> -> bool, q: Indexed<T> -> bool)
    requires forall e | e in es :: p(e) == q(e)
    ensures Keep(es, p) == Keep(es, q)
  {
    if es != [] {
      assert es[0] in es && forall e | e in es[1..] :: e in es;
      KeepSame(es[1..], p, q);
    }
  }

  /** The sort is stable: entries with one index stay in the order in which they came. */
  lemma SortStable<T>(es: seq<Indexed<T>>, index: int)
    ensures
      var same := (e: Indexed<T>) => e.index == index;
      Keep(SortByIndex(es), same) == Keep(es, same)
  {
    var same := (e: Indexed<T>) => e.index == index;
    SortKeep(es, same);
    forall i | 0 <= i < |Keep(es, same)| ensures Keep(es, same)[i].index == index {
      KeepMember(es, same, Keep(es, same)[i]);
    }
    SortOfSame(Keep(es, same), index);
  }

  lemma {:induction false} SortOfSame<T>(es: seq<Indexed<T>>, index: int)
    requires forall i :: 0 <= i < |es| ==> es[i].index == index
    ensures SortByIndex(es) == es
  {
    if es != [] {
      SortOfSame(es[1..], index);
    }
  }
}
