/** The paint order of siblings (graphics_set_z_index and graphics_reorder in
    graphics/graphics.c). */
module ZOrder {
  import opened VectorSort

  type Height = map<nat, nat>

  /** The z index of an element; a fresh element has 0. */
  function Z(height: Height, g: nat): nat { if g in height then height[g] else 0 }

  /** graphics_reorder. */
  function Above(height: Height): (nat, nat) -> int {
    (a: nat, b: nat) => if Z(height, a) > Z(height, b) then 1 else 0
  }

  lemma AboveIsStrictWeak(height: Height)
    ensures StrictWeak(OrderOf(Above(height)))
    ensures forall a, b :: (a, b) in OrderOf(Above(height)) <==> Z(height, a) > Z(height, b)
  {
    forall a, b ensures (a, b) in OrderOf(Above(height)) <==> Z(height, a) > Z(height, b) {
      OrderMeans(Above(height), a, b);
    }
  }

  predicate InZOrder(s: seq<nat>, height: Height) {
    forall i, j :: 0 <= i < j < |s| ==> Z(height, s[i]) <= Z(height, s[j])
  }

  /** The elements other than `g` keep their order among themselves. */
  predicate OthersKeepOrder(after: seq<nat>, perm: seq<nat>, g: nat)
    requires |after| == |perm|
  {
    forall i, j :: 0 <= i < j < |after| && after[i] != g && after[j] != g ==> perm[i] < perm[j]
  }

  /** Sorting after one element got a new height moves nothing but that element. */
  lemma OnlyOneMoves(before: seq<nat>, after: seq<nat>, height: Height, g: nat, z: nat)
    requires InZOrder(before, height) && StableSortOf(before, after, OrderOf(Above(height[g := z])))
    ensures InZOrder(after, height[g := z])
    ensures exists perm :: Rearranges(before, after, perm) && OthersKeepOrder(after, perm, g)
  {
    var now := height[g := z];
    AboveIsStrictWeak(now);
    var perm :| Rearranges(before, after, perm) && TiesKept(after, perm, OrderOf(Above(now)));
    assert OthersKeepOrder(after, perm, g);
  }

  /** The children of one parent, by address, and their z indices. */
  class Siblings {
    const children: Vector<nat>
    var height: Height

    constructor (children: Vector<nat>)
      ensures this.children == children && height == map[]
    {
      this.children, height := children, map[];
    }

    /** graphics_set_z_index; `granted` says whether the sort got its scratch memory. */
    method SetZIndex(g: nat, z: nat, granted: bool)
      requires children.Valid()
      modifies this`height, children.memory
      ensures children.Valid() && height == old(height)[g := z]
      ensures granted ==> InZOrder(children.Contents(), height)
      ensures granted ==> StableSortOf(old(children.Contents()), children.Contents(), OrderOf(Above(height)))
      ensures granted && InZOrder(old(children.Contents()), old(height)) ==>
        exists perm :: Rearranges(old(children.Contents()), children.Contents(), perm)
          && OthersKeepOrder(children.Contents(), perm, g)
      ensures !granted ==> children.Contents() == old(children.Contents())
    {
      ghost var before := children.Contents();
      height := height[g := z];
      AboveIsStrictWeak(height);
      children.Reorder(Above(height), granted);
      if granted && InZOrder(before, old(height)) {
        OnlyOneMoves(before, children.Contents(), old(height), g, z);
      }
    }
  }
}
