/** Vocabulary shared by the models: optional results, and sequences with items left out. */
module Collections {

  datatype Option<+T> = None | Some(value: T)

  datatype Result<+T, +E> = Ok(value: T) | Err(error: E) {
    predicate IsFailure() {
      Err?
    }

    function PropagateFailure<U>(): Result<U, E>
      requires Err?
    {
      Err(error)
    }

    function Extract(): T
      requires Ok?
    {
      value
    }
  }

  function Min(a: nat, b: nat): nat {
    if a < b then a else b
  }

  /** No item occurs at two positions. */
  ghost predicate NoDuplicates<T>(s: seq<T>) {
    forall i, j :: 0 <= i < j < |s| ==> s[i] != s[j]
  }

  /** `s` with every item of `gone` left out, the order of the others kept. */
  ghost function Without<T>(s: seq<T>, gone: set<T>): (r: seq<T>) {
    if s == [] then []
    else
      var front := Without(s[..|s| - 1], gone);
      if s[|s| - 1] in gone then front else front + [s[|s| - 1]]
  }

  lemma {:induction false} WithoutMembers<T>(s: seq<T>, gone: set<T>)
    ensures forall x :: x in Without(s, gone) ==> x in s && x !in gone
    ensures forall x :: x in s && x !in gone ==> x in Without(s, gone)
    ensures |Without(s, gone)| <= |s|
  {
    if s == [] {
    } else {
      WithoutMembers(s[..|s| - 1], gone);
      assert s == s[..|s| - 1] + [s[|s| - 1]];
    }
  }

  lemma {:induction false} WithoutAppend<T>(s: seq<T>, t: seq<T>, gone: set<T>)
    ensures Without(s + t, gone) == Without(s, gone) + Without(t, gone)
  {
    if t == [] {
      assert s + t == s;
    } else {
      assert (s + t)[..|s + t| - 1] == s + t[..|t| - 1];
      WithoutAppend(s, t[..|t| - 1], gone);
    }
  }

  /** Leaving out items that do not occur changes nothing. */
  lemma {:induction false} WithoutAbsent<T>(s: seq<T>, gone: set<T>)
    requires forall x :: x in gone ==> x !in s
    ensures Without(s, gone) == s
  {
    if s == [] {
    } else {
      assert s == s[..|s| - 1] + [s[|s| - 1]];
      WithoutAbsent(s[..|s| - 1], gone);
    }
  }

  /** Items can be left out in two rounds. */
  lemma {:induction false} WithoutTwice<T>(s: seq<T>, first: set<T>, second: set<T>)
    ensures Without(Without(s, first), second) == Without(s, first + second)
  {
    if s == [] {
    } else {
      var front := s[..|s| - 1];
      WithoutTwice(front, first, second);
      if s[|s| - 1] !in first {
        assert Without(s, first)[..|Without(s, first)| - 1] == Without(front, first);
      }
    }
  }

  lemma {:induction false} WithoutNoDuplicates<T>(s: seq<T>, gone: set<T>)
    requires NoDuplicates(s)
    ensures NoDuplicates(Without(s, gone))
  {
    if s == [] {
    } else {
      var front := s[..|s| - 1];
      WithoutNoDuplicates(front, gone);
      WithoutMembers(front, gone);
    }
  }

  lemma {:induction false} WithoutShortens<T>(s: seq<T>, x: T)
    ensures |Without(s, {x})| < |s| <==> x in s
    ensures |Without(s, {x})| <= |s|
  {
    if s == [] {
    } else {
      WithoutShortens(s[..|s| - 1], x);
      assert s == s[..|s| - 1] + [s[|s| - 1]];
    }
  }

  lemma WithoutHead<T>(s: seq<T>)
    requires s != [] && NoDuplicates(s)
    ensures Without(s, {s[0]}) == s[1..]
  {
    assert s == [s[0]] + s[1..];
    assert [s[0]][..0] == [];
    WithoutAppend([s[0]], s[1..], {s[0]});
    WithoutAbsent(s[1..], {s[0]});
  }

  lemma WithoutLast<T>(s: seq<T>, x: T, gone: set<T>)
    ensures Without(s + [x], gone) == if x in gone then Without(s, gone) else Without(s, gone) + [x]
  {
    assert (s + [x])[..|s|] == s;
  }

  lemma NoDuplicatesParts<T>(s: seq<T>, t: seq<T>)
    requires NoDuplicates(s + t)
    ensures NoDuplicates(s) && NoDuplicates(t)
    ensures forall x :: x in t ==> x !in s
  {
    forall i, j | 0 <= i < j < |t|
      ensures t[i] != t[j]
    {
      assert (s + t)[|s| + i] != (s + t)[|s| + j];
    }
    forall i, j | 0 <= i < |s| && 0 <= j < |t|
      ensures s[i] != t[j]
    {
      assert (s + t)[i] != (s + t)[|s| + j];
    }
    forall i, j | 0 <= i < j < |s|
      ensures s[i] != s[j]
    {
      assert (s + t)[i] != (s + t)[j];
    }
  }

  function CutOut<T>(s: seq<T>, k: nat): seq<T>
    requires k < |s|
  {
    s[..k] + s[k + 1..]
  }

  /** Leaving out an item that occurs once cuts it out. */
  lemma WithoutOne<T>(s: seq<T>, k: nat)
    requires k < |s| && NoDuplicates(s)
    ensures Without(s, {s[k]}) == CutOut(s, k)
    ensures NoDuplicates(CutOut(s, k))
    ensures forall i :: 0 <= i < |s| - 1 ==> CutOut(s, k)[i] == s[if i < k then i else i + 1]
  {
    assert s == s[..k] + s[k..];
    NoDuplicatesParts(s[..k], s[k..]);
    WithoutAppend(s[..k], s[k..], {s[k]});
    WithoutAbsent(s[..k], {s[k]});
    WithoutHead(s[k..]);
    WithoutNoDuplicates(s, {s[k]});
  }
}
