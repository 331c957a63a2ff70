/** The per-module lifecycle: Unseen, then DescriptorLocated, BssCleared,
    DynamicParsed, Relocated and Registered, in that order and never backward.
    A run of the loader over one module is recorded as a list of events: the
    4-byte words the loader itself reads, the bss range it clears, and the
    stages it reaches. */
module Lifecycle {

  datatype Stage = DescriptorLocated | BssCleared | DynamicParsed | Relocated | Registered

  /** The order in which a module passes the stages. */
  const ORDER: seq<Stage> := [DescriptorLocated, BssCleared, DynamicParsed, Relocated, Registered]

  /** Position of a stage in ORDER. */
  function Rank(s: Stage): (r: nat)
    ensures r < |ORDER| && ORDER[r] == s
  {
    match s
    case DescriptorLocated => 0
    case BssCleared => 1
    case DynamicParsed => 2
    case Relocated => 3
    case Registered => 4
  }

  datatype Event =
    | ReadWord(addr: int)            // a 4-byte read by the loader itself
    | ClearBss(start: int, end: int) // [start, end) zero-filled
    | Enter(stage: Stage)            // the module has reached `stage`

  /** The stages an event list reaches, in order. */
  function Stages(ev: seq<Event>): (r: seq<Stage>)
    ensures |r| <= |ev|
    ensures forall s :: s in r <==> Enter(s) in ev
  {
    if ev == [] then []
    else
      var last := ev[|ev| - 1];
      Stages(ev[..|ev| - 1]) + if last.Enter? then [last.stage] else []
  }

  lemma {:induction false} StagesAppend(a: seq<Event>, b: seq<Event>)
    ensures Stages(a + b) == Stages(a) + Stages(b)
    decreases |b|
  {
    if b == [] {
      assert a + b == a;
    } else {
      var b' := b[..|b| - 1];
      assert (a + b)[..|a + b| - 1] == a + b';
      StagesAppend(a, b');
    }
  }

  /** Appending one event extends the stages by its stage, if it has one. */
  lemma StagesSnoc(ev: seq<Event>, e: Event)
    ensures Stages(ev + [e]) == Stages(ev) + if e.Enter? then [e.stage] else []
  {
    assert (ev + [e])[..|ev|] == ev;
  }

  /** A module that went through the stages in order, possibly stopped early
      by a fatal fault. */
  predicate InOrder(ev: seq<Event>) {
    Stages(ev) <= ORDER
  }

  /** A load split into its preparation (descriptor and bss) and its
      installation (dynamic section, relocation, registry) is in order when
      each half is, and complete exactly when the installation is. */
  lemma PreparedThenInstalled(prepared: seq<Event>, installed: seq<Event>)
    requires Stages(prepared) == [DescriptorLocated, BssCleared]
    requires Stages(installed) <= [DynamicParsed, Relocated, Registered]
    ensures InOrder(prepared + installed)
    ensures Stages(prepared + installed) == ORDER <==> Stages(installed) == [DynamicParsed, Relocated, Registered]
  {
    StagesAppend(prepared, installed);
    var done, rest := [DescriptorLocated, BssCleared], [DynamicParsed, Relocated, Registered];
    assert done + rest == ORDER;
    assert (done + Stages(installed))[..2] == done;
  }

  /** Stages reached in order are reached with strictly increasing rank: no
      stage is repeated and none comes after a later one. */
  lemma PrefixMonotone(ss: seq<Stage>)
    requires ss <= ORDER
    ensures forall i, j :: 0 <= i < j < |ss| ==> Rank(ss[i]) < Rank(ss[j])
  {
    forall i, j | 0 <= i < j < |ss| ensures Rank(ss[i]) < Rank(ss[j]) {
      assert ss[i] == ORDER[i] && ss[j] == ORDER[j];
      assert Rank(ORDER[i]) == i && Rank(ORDER[j]) == j;
    }
  }

  /** Reaching a stage means having reached every earlier one before it. */
  lemma {:induction false} ReachedImpliesEarlier(ev: seq<Event>, s: Stage)
    requires InOrder(ev) && Enter(s) in ev
    ensures forall t :: Rank(t) <= Rank(s) ==> Enter(t) in ev
  {
    var ss := Stages(ev);
    assert s in ss;
    var k :| 0 <= k < |ss| && ss[k] == s;
    assert ORDER[k] == s;
    assert Rank(s) == k;
    forall t | Rank(t) <= Rank(s) ensures Enter(t) in ev {
      assert ss[Rank(t)] == ORDER[Rank(t)] == t;
      assert t in ss;
    }
  }

  /** Every occurrence of `e` in the list comes after some bss clear. */
  predicate ClearedBefore(ev: seq<Event>, e: Event) {
    forall j :: 0 <= j < |ev| && ev[j] == e ==> exists i :: 0 <= i < j && ev[i].ClearBss?
  }

  /** A clear in a later part still comes after everything in an earlier part
      that does not contain `e`. */
  lemma ClearedBeforeAppend(a: seq<Event>, b: seq<Event>, e: Event)
    requires e !in a && ClearedBefore(b, e)
    ensures ClearedBefore(a + b, e)
  {
    forall j | 0 <= j < |a + b| && (a + b)[j] == e ensures exists i :: 0 <= i < j && (a + b)[i].ClearBss? {
      assert forall k :: 0 <= k < |a| ==> (a + b)[k] == a[k];
      assert b[j - |a|] == e;
      var i :| 0 <= i < j - |a| && b[i].ClearBss?;
      assert (a + b)[|a| + i] == b[i];
    }
  }

  /** Events without `e` appended at the end keep the property. */
  lemma ClearedBeforeExtend(a: seq<Event>, b: seq<Event>, e: Event)
    requires ClearedBefore(a, e) && e !in b
    ensures ClearedBefore(a + b, e)
  {
    forall j | 0 <= j < |a + b| && (a + b)[j] == e ensures exists i :: 0 <= i < j && (a + b)[i].ClearBss? {
      assert forall k :: |a| <= k < |a + b| ==> (a + b)[k] == b[k - |a|];
      assert a[j] == e;
      var i :| 0 <= i < j && a[i].ClearBss?;
      assert (a + b)[i] == a[i];
    }
  }
}
