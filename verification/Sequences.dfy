// Sequences with an element taken out or put in.
module Sequences {

  /** The sequence without element k. */
  ghost function Without<T>(s: seq<T>, k: nat): seq<T>
    requires k < |s|
  {
    s[..k] + s[k + 1..]
  }

  lemma WithoutAt<T>(s: seq<T>, k: nat)
    requires k < |s|
    ensures var r := Without(s, k);
      && |r| == |s| - 1
      && (forall i :: 0 <= i < k ==> r[i] == s[i])
      && (forall i :: k <= i < |r| ==> r[i] == s[i + 1])
  {
  }

  /** The sequence with x in front of element k. */
  ghost function Inserted<T>(s: seq<T>, k: nat, x: T): seq<T>
    requires k <= |s|
  {
    s[..k] + [x] + s[k..]
  }

  lemma InsertedAt<T>(s: seq<T>, k: nat, x: T)
    requires k <= |s|
    ensures var r := Inserted(s, k, x);
      && |r| == |s| + 1 && r[k] == x
      && (forall i :: 0 <= i < k ==> r[i] == s[i])
      && (forall i :: k < i < |r| ==> r[i] == s[i - 1])
  {
  }

  /** A number above all of the set. */
  lemma {:induction false} Above(numbers: set<nat>) returns (p: nat)
    ensures forall q :: q in numbers ==> q < p
    decreases |numbers|
  {
    p := 0;
    if numbers != {} {
      var q :| q in numbers;
      var r := Above(numbers - {q});
      assert numbers == (numbers - {q}) + {q};
      p := if q < r then r else q + 1;
    }
  }
}
