/** The registry of loaded modules: an intrusive circular doubly linked list.
    The list head is a sentinel with its own prev and next words; every linked
    module object holds its neighbours' addresses in its prev (+0x00) and next
    (+0x08) slots. */
module Registry {
  import opened Words
  import opened Layout
  import opened RoModule

  /** `s` and `t` agree in every slot apart from the two links. */
  ghost predicate SameOffLinks(s: Slots, t: Slots) {
    forall f: Offset :: f != PREV && f != NEXT ==> Field(s, f) == Field(t, f)
  }

  /** Rewriting a link of `s` keeps it in agreement with `t`, and with itself. */
  lemma RelinkedSame(s: Slots, t: Slots, o: Offset, v: u64)
    requires o == PREV || o == NEXT
    requires s == t || SameOffLinks(s, t)
    ensures SameOffLinks(WithField(s, o, v), t)
  { }

  lemma SameOffLinksItself(s: Slots)
    ensures SameOffLinks(s, s)
  { }

  /** `obj` holds `s` in every slot apart from its two links. */
  ghost predicate Holds(obj: ModuleObject, s: Slots)
    reads obj
  {
    SameOffLinks(obj.slots, s)
  }

  /** Appending to an empty registry leaves exactly the one object. */
  lemma AppendedToEmpty(reg: ModuleList, objAddr: u64, slots: Slots, base: u64)
    requires Appended(reg, [], [], [], objAddr, slots, base)
    ensures |reg.members| == 1 && reg.bases == [base] && reg.images == [slots]
  { }

  /** The registry grew by one object at `objAddr`, holding `slots` apart from
      its links, after the objects `before`; the bases and images it records,
      `bases` and `images` before, grew by `base` and `slots`. */
  ghost predicate Appended(reg: ModuleList, before: seq<ModuleObject>, bases: seq<u64>, images: seq<Slots>,
                           objAddr: u64, slots: Slots, base: u64)
    reads reg, reg.members
  {
    && |reg.members| == |before| + 1
    && reg.members[..|before|] == before
    && reg.members[|before|].address == objAddr
    && Holds(reg.members[|before|], slots)
    && reg.bases == bases + [base]
    && reg.images == images + [slots]
  }

  class ModuleList {
    /** Where the sentinel lives. */
    const address: u64
    var prev: u64
    var next: u64
    /** The linked objects, from the one after the sentinel round to the one
        before it. */
    var members: seq<ModuleObject>
    /** The load base each member holds, in list order. */
    ghost var bases: seq<u64>
    /** What each member holds apart from its links, in list order. */
    ghost var images: seq<Slots>

    /** Member i is linked to its neighbours: its prev is the object before
        it and its next the object after it, the sentinel standing before the
        first member and after the last. */
    ghost predicate LinkedAt(i: int)
      reads this, members
      requires 0 <= i < |members|
    {
      && Field(members[i].slots, PREV) == (if i == 0 then address else members[i - 1].address)
      && Field(members[i].slots, NEXT) == (if i == |members| - 1 then address else members[i + 1].address)
    }

    /** The ring: the sentinel's next is the first member and its prev the
        last (both the sentinel itself when the list is empty), every member is
        linked to its neighbours, and no object is linked twice. */
    ghost predicate Valid()
      reads this, members
    {
      && (forall i, j :: 0 <= i < j < |members| ==> members[i] != members[j])
      && next == (if members == [] then address else members[0].address)
      && prev == (if members == [] then address else members[|members| - 1].address)
      && (forall i :: 0 <= i < |members| ==> LinkedAt(i))
      && |bases| == |members|
      && (forall i :: 0 <= i < |members| ==> bases[i] == Field(members[i].slots, BASE))
      && |images| == |members|
      && forall i :: 0 <= i < |members| ==> Holds(members[i], images[i])
    }

    /** In a valid registry member i holds image i. */
    lemma ImagesHeld()
      requires Valid()
      ensures |images| == |members| && forall i :: 0 <= i < |members| ==> Holds(members[i], images[i])
    {
    }

    /** An empty list: the sentinel points at itself. */
    constructor (address: u64)
      ensures this.address == address && members == [] && bases == [] && images == []
      ensures Valid()
    {
      this.address := address;
      prev := address;
      next := address;
      members := [];
      bases := [];
      images := [];
    }

    /** Splices the unlinked ring of `obj` (prev and next pointing at itself)
        into the list just before the sentinel: the prev word of `obj` is read
        and becomes the sentinel's new prev. No slot other than the links
        changes, in `obj` or in any member. */
    method Link(obj: ModuleObject)
      requires Valid()
      requires obj !in members
      requires Field(obj.slots, PREV) == obj.address && Field(obj.slots, NEXT) == obj.address
      modifies this, obj, if members == [] then {} else {members[|members| - 1]}
      ensures Valid()
      ensures members == old(members) + [obj]
      ensures Holds(obj, old(obj.slots))
      ensures forall m :: m in old(members) ==> Holds(m, old(m.slots))
      ensures forall i :: 0 <= i < |old(members)| - 1 ==> members[i].slots == old(members[i].slots)
      ensures bases == old(bases) + [Field(obj.slots, BASE)]
      ensures images == old(images) + [old(obj.slots)]
      ensures Appended(this, old(members), old(bases), old(images), obj.address, old(obj.slots), Field(obj.slots, BASE))
    {
      hide SameOffLinks, LinkedAt, Holds;
      images := images + [obj.slots];
      var objPrev := Field(obj.slots, PREV);
      var last := prev;
      if members == [] {
        next := obj.address;
      } else {
        var tail := members[|members| - 1];
        tail.slots := WithField(tail.slots, NEXT, obj.address);
      }
      obj.slots := WithField(WithField(obj.slots, NEXT, address), PREV, last);
      prev := objPrev;
      members := members + [obj];
      bases := bases + [Field(obj.slots, BASE)];
      RingKept(obj);
      ImagesKept(obj);
    }

    /** After a link, the members before the old last one kept their slots,
        the old last one points forward at `obj`, and `obj` sits between it
        and the sentinel: every member is linked to its neighbours. */
    twostate lemma RingKept(obj: ModuleObject)
      requires old(Valid())
      requires members == old(members) + [obj]
      requires forall i :: 0 <= i < |old(members)| - 1 ==> members[i].slots == old(members[i].slots)
      requires old(members) != [] ==>
        members[|old(members)| - 1].slots == WithField(old(members[|members| - 1].slots), NEXT, obj.address)
      requires obj.slots == WithField(WithField(old(obj.slots), NEXT, address), PREV, old(prev))
      ensures forall i :: 0 <= i < |members| ==> LinkedAt(i)
    {
      forall i | 0 <= i < |members| ensures LinkedAt(i) {
        if i < |members| - 1 {
          assert old(LinkedAt(i));
        }
      }
    }

    /** After a link, the members before the old last one kept their slots
        and the old last one and `obj` only had links rewritten: every member
        still holds its image, and what every earlier member held apart from
        its links it still holds. */
    twostate lemma ImagesKept(obj: ModuleObject)
      requires old(Valid())
      requires members == old(members) + [obj] && images == old(images) + [old(obj.slots)]
      requires forall i :: 0 <= i < |old(members)| - 1 ==> members[i].slots == old(members[i].slots)
      requires old(members) != [] ==>
        members[|old(members)| - 1].slots == WithField(old(members[|members| - 1].slots), NEXT, obj.address)
      requires obj.slots == WithField(WithField(old(obj.slots), NEXT, address), PREV, old(prev))
      ensures forall i :: 0 <= i < |members| ==> Holds(members[i], images[i])
      ensures forall m :: m in old(members) ==> Holds(m, old(m.slots))
    {
      var n := |old(members)|;
      if n > 0 {
        assert old(Holds(members[n - 1], images[n - 1]));
        RelinkedSame(old(members[n - 1].slots), images[n - 1], NEXT, obj.address);
      }
      RelinkedSame(old(obj.slots), old(obj.slots), NEXT, address);
      RelinkedSame(WithField(old(obj.slots), NEXT, address), old(obj.slots), PREV, old(prev));
      forall i | 0 <= i < |old(members)| - 1 ensures Holds(members[i], images[i]) {
        assert old(Holds(members[i], images[i]));
      }
      forall m | m in old(members) ensures Holds(m, old(m.slots)) {
        var i :| 0 <= i < |old(members)| && old(members[i]) == m;
        if i < |old(members)| - 1 {
          SameOffLinksItself(m.slots);
        } else {
          RelinkedSame(old(m.slots), old(m.slots), NEXT, obj.address);
        }
      }
    }
  }
}
