/**
 * The minor numbers along the list of streams (tun.c), apart from the list: where an open puts
 * a number, and which runs keep the numbers increasing.
 */
module MinorNumbers {
  import opened Collections

  /** What a request does to the numbers along the list. */
  datatype Change =
    | Clone               // an open that numbers the stream itself
    | Device(minor: nat)  // an open of the device node with this number
    | Drop(i: nat)        // the close of the stream at place `i`, or of the last one
    | Keep

  ghost predicate Increasing(ms: seq<nat>) {
    forall i, j :: 0 <= i < j < |ms| ==> ms[i] < ms[j]
  }

  /** The first place from `i` on whose number leaves the place itself free. */
  function Gap(ms: seq<nat>, i: nat): (k: nat)
    requires i <= |ms|
    ensures i <= k <= |ms|
    decreases |ms| - i
  {
    if i == |ms| || i < ms[i] then i else Gap(ms, i + 1)
  }

  function Inserted(ms: seq<nat>, k: nat, m: nat): seq<nat>
    requires k <= |ms|
  {
    ms[..k] + [m] + ms[k..]
  }

  function Changed(ms: seq<nat>, c: Change): seq<nat> {
    match c
    case Clone => Inserted(ms, Gap(ms, 0), Gap(ms, 0))
    case Device(minor) => [minor] + ms
    case Drop(i) => if ms == [] then [] else CutOut(ms, Min(i, |ms| - 1))
    case Keep => ms
  }

  function ChangedAll(cs: seq<Change>): seq<nat> {
    if cs == [] then [] else Changed(ChangedAll(cs[..|cs| - 1]), cs[|cs| - 1])
  }

  lemma {:induction false} GapIsFirst(ms: seq<nat>, i: nat)
    requires i <= |ms|
    ensures forall j :: i <= j < Gap(ms, i) ==> ms[j] <= j
    ensures Gap(ms, i) < |ms| ==> Gap(ms, i) < ms[Gap(ms, i)]
    decreases |ms| - i
  {
    if i == |ms| || i < ms[i] {
    } else {
      GapIsFirst(ms, i + 1);
    }
  }

  lemma {:induction false} AtLeastItsPlace(ms: seq<nat>, i: nat)
    requires Increasing(ms) && i < |ms|
    ensures i <= ms[i]
  {
    if i == 0 {
    } else {
      AtLeastItsPlace(ms, i - 1);
    }
  }

  /** Where the numbers increase, the gap is the least number that is not in use. */
  lemma LeastFree(ms: seq<nat>)
    requires Increasing(ms)
    ensures var k := Gap(ms, 0);
      && k !in ms
      && (forall i :: 0 <= i < k ==> ms[i] == i)
      && (forall i :: k <= i < |ms| ==> k < ms[i])
  {
    GapIsFirst(ms, 0);
    forall i | 0 <= i < Gap(ms, 0)
      ensures ms[i] == i
    {
      AtLeastItsPlace(ms, i);
    }
  }

  /** A number put in at place `k` keeps them increasing exactly when it fits there. */
  lemma InsertedIncreasing(ms: seq<nat>, k: nat, m: nat)
    requires Increasing(ms) && k <= |ms|
    ensures Increasing(Inserted(ms, k, m)) <==> (k > 0 ==> ms[k - 1] < m) && (k < |ms| ==> m < ms[k])
  {
    var r := Inserted(ms, k, m);
    assert r[k] == m;
    assert k > 0 ==> r[k - 1] == ms[k - 1];
    assert k < |ms| ==> r[k + 1] == ms[k];
    if (k > 0 ==> ms[k - 1] < m) && (k < |ms| ==> m < ms[k]) {
      forall i, j | 0 <= i < j < |r|
        ensures r[i] < r[j]
      {
        assert i < k ==> r[i] == ms[i] && (i < k - 1 ==> ms[i] < ms[k - 1]);
        assert j > k ==> r[j] == ms[j - 1] && (j > k + 1 ==> ms[k] < ms[j - 1]);
      }
    }
  }

  /**
   * A request keeps the numbers increasing exactly unless it opens a device node whose number
   * is not below the least in use.
   */
  lemma ChangedIncreasingExactlyWhen(ms: seq<nat>, c: Change)
    requires Increasing(ms)
    ensures Increasing(Changed(ms, c)) <==> !(c.Device? && ms != [] && ms[0] <= c.minor)
  {
    match c
    case Clone =>
      LeastFree(ms);
      InsertedIncreasing(ms, Gap(ms, 0), Gap(ms, 0));
    case Device(minor) =>
      assert Inserted(ms, 0, minor) == [minor] + ms;
      InsertedIncreasing(ms, 0, minor);
    case Drop(i) =>
      if ms != [] {
        var k := Min(i, |ms| - 1);
        assert forall j :: 0 <= j < |ms| - 1 ==> CutOut(ms, k)[j] == ms[if j < k then j else j + 1];
      }
    case Keep =>
  }

  /** Every device node opened in the run has a number below the least in use at that moment. */
  ghost predicate BelowLeast(cs: seq<Change>) {
    forall k :: 0 <= k < |cs| && cs[k].Device? ==>
      ChangedAll(cs[..k]) == [] || cs[k].minor < ChangedAll(cs[..k])[0]
  }

  /** The numbers increase throughout a run exactly when it opens device nodes only below the least number in use. */
  lemma {:induction false} IncreasingExactlyWhen(cs: seq<Change>)
    ensures (forall k :: 0 <= k <= |cs| ==> Increasing(ChangedAll(cs[..k]))) <==> BelowLeast(cs)
  {
    if cs == [] {
    } else {
      var last := |cs| - 1;
      var front := cs[..last];
      IncreasingExactlyWhen(front);
      assert forall k :: 0 <= k <= last ==> front[..k] == cs[..k];
      assert cs[..|cs|] == cs;
      assert BelowLeast(front) <== BelowLeast(cs);
      if BelowLeast(front) {
        assert Increasing(ChangedAll(front[..last]));
        ChangedIncreasingExactlyWhen(ChangedAll(front), cs[last]);
        BelowLeastLast(cs);
      }
    }
  }

  lemma BelowLeastLast(cs: seq<Change>)
    requires cs != [] && BelowLeast(cs[..|cs| - 1])
    ensures var ms, c := ChangedAll(cs[..|cs| - 1]), cs[|cs| - 1];
      BelowLeast(cs) <==> !(c.Device? && ms != [] && ms[0] <= c.minor)
  {
    var front := cs[..|cs| - 1];
    assert forall k :: 0 <= k <= |front| ==> front[..k] == cs[..k];
    assert forall k :: 0 <= k < |front| ==> front[k] == cs[k];
  }
}
