/** The question store and the category filter applied to it when a category is picked. */
module Questions {

  /** One entry of the static question store. */
  datatype Question = Question(id: int, category: string, question: string, options: seq<string>, answer: string)

  /** `a` can be obtained from `b` by deleting elements, keeping the order of the rest. */
  predicate IsSubsequence<T(==)>(a: seq<T>, b: seq<T>)
    decreases |b|
  {
    if a == [] then true
    else if b == [] then false
    else (a[0] == b[0] && IsSubsequence(a[1..], b[1..])) || IsSubsequence(a, b[1..])
  }

  /** The questions of `qs` whose label is `cat`, in store order (the `filter` call). */
  function OfCategory(qs: seq<Question>, cat: string): (r: seq<Question>)
    ensures |r| <= |qs|
    ensures forall q :: q in r <==> q in qs && q.category == cat
  {
    if qs == [] then []
    else if qs[0].category == cat then [qs[0]] + OfCategory(qs[1..], cat)
    else OfCategory(qs[1..], cat)
  }

  /** The question list a category selection produces: the category's questions, or the
      whole store when the category has none. */
  function Selection(all: seq<Question>, cat: string): (r: seq<Question>)
    ensures |r| > 0 <==> |all| > 0
    ensures forall q :: q in r ==> q in all
    ensures (exists q :: q in all && q.category == cat) ==>
              forall q :: q in r <==> q in all && q.category == cat
    ensures (forall q :: q in all ==> q.category != cat) ==> r == all
  {
    var filtered := OfCategory(all, cat);
    if |filtered| > 0 then
      assert filtered[0] in filtered;
      filtered
    else all
  }

  lemma {:induction false} SubsequenceOfItself<T>(a: seq<T>)
    ensures IsSubsequence(a, a)
  {
    if a != [] {
      SubsequenceOfItself(a[1..]);
    }
  }

  /** The filter keeps the store's order: its result is a subsequence of the store. */
  lemma {:induction false} OfCategoryIsSubsequence(qs: seq<Question>, cat: string)
    ensures IsSubsequence(OfCategory(qs, cat), qs)
  {
    if qs != [] {
      OfCategoryIsSubsequence(qs[1..], cat);
      var r := OfCategory(qs, cat);
      if qs[0].category == cat {
        assert r[0] == qs[0] && r[1..] == OfCategory(qs[1..], cat);
      }
    }
  }

  /** Filtering a concatenation filters each part: no question moves across another. */
  lemma {:induction false} OfCategoryAppend(a: seq<Question>, b: seq<Question>, cat: string)
    ensures OfCategory(a + b, cat) == OfCategory(a, cat) + OfCategory(b, cat)
  {
    if a == [] {
      assert a + b == b;
    } else {
      assert (a + b)[0] == a[0];
      assert (a + b)[1..] == a[1..] + b;
      OfCategoryAppend(a[1..], b, cat);
    }
  }

  /** The filter neither drops nor duplicates a matching question. */
  lemma {:induction false} OfCategoryCount(qs: seq<Question>, cat: string, q: Question)
    ensures multiset(OfCategory(qs, cat))[q] == if q.category == cat then multiset(qs)[q] else 0
  {
    if qs != [] {
      OfCategoryCount(qs[1..], cat, q);
      assert qs == [qs[0]] + qs[1..];
      assert multiset(qs) == multiset([qs[0]]) + multiset(qs[1..]);
    }
  }

  /** Whichever branch is taken, a selection keeps the store's order. */
  lemma SelectionIsSubsequence(all: seq<Question>, cat: string)
    ensures IsSubsequence(Selection(all, cat), all)
  {
    if |OfCategory(all, cat)| > 0 {
      OfCategoryIsSubsequence(all, cat);
    } else {
      SubsequenceOfItself(all);
    }
  }
}
