/**
 * The item kinds of the text adventure (`Thing` in inventory.rs) and the
 * tag-only classification predicates, together with the slice searches that
 * the Rust code performs through iterator adapters (`any`, `position`) and
 * `Vec::remove`.
 */
module Things {

  import opened Wrappers
  import opened Board

  /** Rust's `i32`. */
  newtype i32 = x: int | -0x8000_0000 <= x < 0x8000_0000

  const I32_MAX: int := 0x7fff_ffff

  datatype Thing =
    | Food(name: string, energy: i32)
    | GoldCoin(denom: i32)
    | FakeCoin(denom: i32)
    | Teleporter
    | Torch
    | MagicWord(word: string, room: Position, wall: Direction)
    | FakeWord(word: string)

  predicate IsFood(t: Thing) {
    match t
    case Food(_, _) => true
    case _ => false
  }

  predicate IsFakeCoin(t: Thing) {
    match t
    case FakeCoin(_) => true
    case _ => false
  }

  predicate IsGoldCoin(t: Thing) {
    match t
    case GoldCoin(_) => true
    case _ => false
  }

  /** Each classification predicate holds exactly for its own tag. */
  lemma ClassifiedByTag(t: Thing)
    ensures IsFood(t) <==> t.Food?
    ensures IsFakeCoin(t) <==> t.FakeCoin?
    ensures IsGoldCoin(t) <==> t.GoldCoin?
    ensures t.Teleporter? || t.Torch? || t.MagicWord? || t.FakeWord? ==>
              !IsFood(t) && !IsFakeCoin(t) && !IsGoldCoin(t)
  {
  }

  /** No item falls into two classes. */
  lemma ClassesAreDisjoint(t: Thing)
    ensures !(IsFood(t) && IsFakeCoin(t))
    ensures !(IsFood(t) && IsGoldCoin(t))
    ensures !(IsFakeCoin(t) && IsGoldCoin(t))
  {
  }

  /** `iter().any(p)`: some element satisfies `p`. */
  function Any<T>(s: seq<T>, p: T -> bool): (r: bool)
    ensures r <==> exists i :: 0 <= i < |s| && p(s[i])
  {
    if s == [] then false
    else if p(s[0]) then true
    else
      assert forall i :: 1 <= i < |s| ==> s[i] == s[1..][i - 1];
      Any(s[1..], p)
  }

  /** `iter().position(p)`: the index of the first element satisfying `p`. */
  function FindFirst<T>(s: seq<T>, p: T -> bool): (r: Option<nat>)
    ensures r.None? <==> forall i :: 0 <= i < |s| ==> !p(s[i])
    ensures r.Some? ==> r.value < |s| && p(s[r.value])
    ensures r.Some? ==> forall j :: 0 <= j < r.value ==> !p(s[j])
  {
    if s == [] then None
    else if p(s[0]) then Some(0)
    else
      match FindFirst(s[1..], p)
      case None =>
        assert forall i :: 1 <= i < |s| ==> s[i] == s[1..][i - 1];
        None
      case Some(k) =>
        assert forall j :: 1 <= j < k + 1 ==> s[j] == s[1..][j - 1];
        Some(k + 1)
  }

  /**
   * `Vec::remove(k)`: drops the element at `k`, shifting the later ones one
   * place to the front.
   */
  function RemoveAt<T>(s: seq<T>, k: nat): (r: seq<T>)
    requires k < |s|
    ensures |r| == |s| - 1
    ensures forall i :: 0 <= i < k ==> r[i] == s[i]
    ensures forall i :: k <= i < |r| ==> r[i] == s[i + 1]
    ensures multiset(r) + multiset{s[k]} == multiset(s)
  {
    assert s == s[..k] + [s[k]] + s[k + 1..];
    s[..k] + s[k + 1..]
  }
}
