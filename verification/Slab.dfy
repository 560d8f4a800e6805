/**
 The slab allocator of memory/slab.c: per-CPU magazines over a depot of magazines over slabs.
 Each method is one atomic step of a run; the lists are sequences with the head first.
 */
module Slab {
  import opened Basics
  import Division
  import opened SlabModel

  datatype Slot = Primary(cpu: nat) | Secondary(cpu: nat) | FullDepot | EmptyDepot

  // ---------- the slab lists ----------

  ghost predicate ListedOk(slabs: map<nat, SlabModel.Slab>, partial: seq<nat>, full: seq<nat>, b: nat) {
    && (b in slabs && slabs[b].freeCount > 0 <==> b in partial)
    && (b in slabs && slabs[b].freeCount == 0 <==> b in full)
  }

  /** Every slab is in one list: partial if it has a free object, else full. */
  ghost predicate ListsOk(slabs: map<nat, SlabModel.Slab>, partial: seq<nat>, full: seq<nat>) {
    NoDup(partial) && NoDup(full) && forall b: nat {:trigger ListedOk(slabs, partial, full, b)} :: ListedOk(slabs, partial, full, b)
  }

  lemma {:induction false} ListsAfterMake(slabs: map<nat, SlabModel.Slab>, slabs': map<nat, SlabModel.Slab>, partial: seq<nat>, full: seq<nat>, b: nat)
    requires ListsOk(slabs, partial, full) && partial == [] && b !in slabs
    requires b in slabs' && slabs'[b].freeCount > 0 && slabs' == slabs[b := slabs'[b]]
    ensures ListsOk(slabs', [b], full)
  {
    forall k: nat ensures ListedOk(slabs', [b], full, k) { assert ListedOk(slabs, partial, full, k); }
  }

  lemma {:induction false} ListsAfterTake(slabs: map<nat, SlabModel.Slab>, slabs': map<nat, SlabModel.Slab>, partial: seq<nat>, full: seq<nat>, b: nat)
    requires ListsOk(slabs, partial, full) && partial != [] && b == partial[0] && b in slabs && b in slabs'
    requires slabs' == slabs[b := slabs'[b]] && slabs'[b].freeCount == slabs[b].freeCount - 1
    ensures slabs'[b].freeCount > 0 ==> ListsOk(slabs', partial, full)
    ensures slabs'[b].freeCount == 0 ==> ListsOk(slabs', partial[1..], [b] + full)
  {
    assert ListedOk(slabs, partial, full, b);
    assert partial == [b] + partial[1..];
    forall k: nat ensures slabs'[b].freeCount > 0 ==> ListedOk(slabs', partial, full, k) { assert ListedOk(slabs, partial, full, k); }
    forall k: nat ensures slabs'[b].freeCount == 0 ==> ListedOk(slabs', partial[1..], [b] + full, k) { assert ListedOk(slabs, partial, full, k); }
  }

  lemma {:induction false} ListsAfterGive(slabs: map<nat, SlabModel.Slab>, slabs': map<nat, SlabModel.Slab>, partial: seq<nat>, full: seq<nat>, b: nat)
    requires ListsOk(slabs, partial, full) && b in slabs && b in slabs'
    requires slabs' == slabs[b := slabs'[b]] && slabs'[b].freeCount == slabs[b].freeCount + 1
    ensures slabs[b].freeCount > 0 ==> ListsOk(slabs', partial, full)
    ensures slabs[b].freeCount == 0 ==> ListsOk(slabs', [b] + partial, Delete(full, b))
  {
    assert ListedOk(slabs, partial, full, b);
    DeleteHas(full, b);
    forall k: nat ensures slabs[b].freeCount > 0 ==> ListedOk(slabs', partial, full, k) { assert ListedOk(slabs, partial, full, k); }
    forall k: nat ensures slabs[b].freeCount == 0 ==> ListedOk(slabs', [b] + partial, Delete(full, b), k) {
      assert ListedOk(slabs, partial, full, k);
    }
  }

  // ---------- who holds which magazine ----------

  /** A magazine is held where its slot says; only a primary one may be partly full. */
  ghost predicate SlotOk(mags: map<nat, Magazine>, slot: map<nat, Slot>, primary: seq<nat>, secondary: seq<nat>, full: seq<nat>, empty: seq<nat>, m: nat) {
    && m in slot && m in mags
    && (m in full <==> slot[m] == FullDepot) && (m in empty <==> slot[m] == EmptyDepot)
    && match slot[m]
       case Primary(c) => c < |primary| && primary[c] == m
       case Secondary(c) => c < |secondary| && secondary[c] == m && (mags[m].roundCount == 0 || mags[m].roundCount == MAGAZINE_SIZE)
       case FullDepot => mags[m].roundCount == MAGAZINE_SIZE
       case EmptyDepot => mags[m].roundCount == 0
  }

  ghost predicate CpuOk(slot: map<nat, Slot>, primary: seq<nat>, secondary: seq<nat>, c: nat) {
    && c < |primary| == |secondary|
    && primary[c] in slot && slot[primary[c]] == Primary(c) && secondary[c] in slot && slot[secondary[c]] == Secondary(c)
  }

  /** Each magazine is held in exactly one way. */
  ghost predicate SlotsOk(mags: map<nat, Magazine>, slot: map<nat, Slot>, primary: seq<nat>, secondary: seq<nat>, full: seq<nat>, empty: seq<nat>) {
    && slot.Keys == mags.Keys && |primary| == |secondary| && NoDup(full) && NoDup(empty)
    && (forall m: nat {:trigger SlotOk(mags, slot, primary, secondary, full, empty, m)} :: m in slot ==> SlotOk(mags, slot, primary, secondary, full, empty, m))
    && (forall c: nat {:trigger CpuOk(slot, primary, secondary, c)} :: c < |primary| ==> CpuOk(slot, primary, secondary, c))
    && (forall m: nat {:trigger m in full} :: m in full ==> m in slot) && (forall m: nat {:trigger m in empty} :: m in empty ==> m in slot)
  }

  /** The secondary magazine of a CPU is entirely full or entirely empty, and so is each list of the depot; no magazine is held twice. */
  lemma {:induction false} WholeMagazines(mags: map<nat, Magazine>, slot: map<nat, Slot>, primary: seq<nat>, secondary: seq<nat>, full: seq<nat>, empty: seq<nat>, c: nat, d: nat, m: nat)
    requires SlotsOk(mags, slot, primary, secondary, full, empty) && c < |primary| && d < |primary|
    ensures secondary[c] in mags && (mags[secondary[c]].roundCount == 0 || mags[secondary[c]].roundCount == MAGAZINE_SIZE)
    ensures primary[c] != secondary[d] && (c != d ==> primary[c] != primary[d] && secondary[c] != secondary[d])
    ensures m in full ==> m in mags && mags[m].roundCount == MAGAZINE_SIZE && m !in empty && m != primary[c] && m != secondary[c]
    ensures m in empty ==> m in mags && mags[m].roundCount == 0 && m != primary[c] && m != secondary[c]
    ensures m in mags ==> m in full || m in empty || m in primary || m in secondary
  {
    assert CpuOk(slot, primary, secondary, c) && CpuOk(slot, primary, secondary, d);
    assert SlotOk(mags, slot, primary, secondary, full, empty, secondary[c]);
    if m in slot { assert SlotOk(mags, slot, primary, secondary, full, empty, m); }
  }

  /** The contents of a primary magazine may change. */
  lemma {:induction false} SlotsAfterFill(mags: map<nat, Magazine>, mags': map<nat, Magazine>, slot: map<nat, Slot>, primary: seq<nat>, secondary: seq<nat>, full: seq<nat>, empty: seq<nat>, c: nat)
    requires SlotsOk(mags, slot, primary, secondary, full, empty) && c < |primary| && primary[c] in mags && primary[c] in mags'
    requires mags' == mags[primary[c] := mags'[primary[c]]]
    ensures SlotsOk(mags', slot, primary, secondary, full, empty)
  {
    assert CpuOk(slot, primary, secondary, c);
    forall m: nat | m in slot ensures SlotOk(mags', slot, primary, secondary, full, empty, m) {
      assert SlotOk(mags, slot, primary, secondary, full, empty, m);
    }
  }

  /** The two magazines of a CPU change places when the primary is entirely full or entirely empty. */
  lemma {:induction false} SlotsAfterSwap(mags: map<nat, Magazine>, slot: map<nat, Slot>, slot': map<nat, Slot>, primary: seq<nat>, secondary: seq<nat>, full: seq<nat>, empty: seq<nat>, c: nat)
    requires SlotsOk(mags, slot, primary, secondary, full, empty) && c < |primary| && primary[c] in mags
    requires mags[primary[c]].roundCount == 0 || mags[primary[c]].roundCount == MAGAZINE_SIZE
    requires slot' == slot[primary[c] := Secondary(c)][secondary[c] := Primary(c)]
    ensures SlotsOk(mags, slot', primary[c := secondary[c]], secondary[c := primary[c]], full, empty)
  {
    var primary', secondary' := primary[c := secondary[c]], secondary[c := primary[c]];
    assert CpuOk(slot, primary, secondary, c);
    assert SlotOk(mags, slot, primary, secondary, full, empty, primary[c]) && SlotOk(mags, slot, primary, secondary, full, empty, secondary[c]);
    forall m: nat | m in slot' ensures SlotOk(mags, slot', primary', secondary', full, empty, m) {
      assert SlotOk(mags, slot, primary, secondary, full, empty, m);
    }
    forall k: nat | k < |primary'| ensures CpuOk(slot', primary', secondary', k) { assert CpuOk(slot, primary, secondary, k); }
  }

  /** A full magazine comes from the depot; the empty secondary goes there. */
  lemma {:induction false} SlotsAfterRefill(mags: map<nat, Magazine>, slot: map<nat, Slot>, slot': map<nat, Slot>, primary: seq<nat>, secondary: seq<nat>, full: seq<nat>, empty: seq<nat>, c: nat)
    requires SlotsOk(mags, slot, primary, secondary, full, empty) && c < |primary| && primary[c] in mags && secondary[c] in mags && full != []
    requires mags[primary[c]].roundCount == 0 && mags[secondary[c]].roundCount == 0
    requires slot' == slot[secondary[c] := EmptyDepot][primary[c] := Secondary(c)][full[0] := Primary(c)]
    ensures SlotsOk(mags, slot', primary[c := full[0]], secondary[c := primary[c]], full[1..], [secondary[c]] + empty)
    ensures full[0] in mags && mags[full[0]].roundCount == MAGAZINE_SIZE
  {
    var primary', secondary', empty' := primary[c := full[0]], secondary[c := primary[c]], [secondary[c]] + empty;
    assert full == [full[0]] + full[1..];
    assert full[0] in full;
    assert CpuOk(slot, primary, secondary, c);
    assert SlotOk(mags, slot, primary, secondary, full, empty, primary[c]) && SlotOk(mags, slot, primary, secondary, full, empty, secondary[c]);
    assert SlotOk(mags, slot, primary, secondary, full, empty, full[0]);
    assert slot'.Keys == slot.Keys;
    assert NoDup(empty') && NoDup(full[1..]);
    forall m: nat | m in full[1..] || m in empty' ensures m in slot' { assert m in full || m in empty || m == secondary[c]; }
    forall m: nat | m in slot' ensures SlotOk(mags, slot', primary', secondary', full[1..], empty', m) {
      assert SlotOk(mags, slot, primary, secondary, full, empty, m);
    }
    forall k: nat | k < |primary'| ensures CpuOk(slot', primary', secondary', k) { assert CpuOk(slot, primary, secondary, k); }
  }

  /** An empty magazine comes from the depot; the full secondary goes there. */
  lemma {:induction false} SlotsAfterDrain(mags: map<nat, Magazine>, slot: map<nat, Slot>, slot': map<nat, Slot>, primary: seq<nat>, secondary: seq<nat>, full: seq<nat>, empty: seq<nat>, c: nat)
    requires SlotsOk(mags, slot, primary, secondary, full, empty) && c < |primary| && primary[c] in mags && secondary[c] in mags && empty != []
    requires mags[primary[c]].roundCount == MAGAZINE_SIZE && mags[secondary[c]].roundCount == MAGAZINE_SIZE
    requires slot' == slot[secondary[c] := FullDepot][primary[c] := Secondary(c)][empty[0] := Primary(c)]
    ensures SlotsOk(mags, slot', primary[c := empty[0]], secondary[c := primary[c]], [secondary[c]] + full, empty[1..])
    ensures empty[0] in mags && mags[empty[0]].roundCount == 0
  {
    var primary', secondary', full' := primary[c := empty[0]], secondary[c := primary[c]], [secondary[c]] + full;
    assert empty == [empty[0]] + empty[1..];
    assert empty[0] in empty;
    assert CpuOk(slot, primary, secondary, c);
    assert SlotOk(mags, slot, primary, secondary, full, empty, primary[c]) && SlotOk(mags, slot, primary, secondary, full, empty, secondary[c]);
    assert SlotOk(mags, slot, primary, secondary, full, empty, empty[0]);
    assert slot'.Keys == slot.Keys;
    assert NoDup(full') && NoDup(empty[1..]);
    forall m: nat | m in full' || m in empty[1..] ensures m in slot' { assert m in full || m in empty || m == secondary[c]; }
    forall m: nat | m in slot' ensures SlotOk(mags, slot', primary', secondary', full', empty[1..], m) {
      assert SlotOk(mags, slot, primary, secondary, full, empty, m);
    }
    forall k: nat | k < |primary'| ensures CpuOk(slot', primary', secondary', k) { assert CpuOk(slot, primary, secondary, k); }
  }

  /** A new magazine is empty. */
  lemma {:induction false} StockAfterMagazine(z: Sizes, slabs: map<nat, SlabModel.Slab>, mags: map<nat, Magazine>, mags': map<nat, Magazine>, place: map<nat, Place>, m: nat)
    requires Stock(z, slabs, mags, place) && m !in mags && m in mags' && mags' == mags[m := mags'[m]]
    requires |mags'[m].rounds| == MAGAZINE_SIZE && mags'[m].roundCount == 0
    ensures Stock(z, slabs, mags', place)
  {
    forall x: nat | x in place ensures ObjectOk(z, slabs, mags', place, x) { assert ObjectOk(z, slabs, mags, place, x); }
    forall k: nat | k in mags' ensures MagazineOk(mags', place, k) { if k != m { assert MagazineOk(mags, place, k); } }
  }

  lemma {:induction false} StockAfterTwo(z: Sizes, slabs: map<nat, SlabModel.Slab>, mags: map<nat, Magazine>, mags': map<nat, Magazine>, place: map<nat, Place>, p: nat, s: nat)
    requires Stock(z, slabs, mags, place) && p !in mags && s !in mags && p != s && p in mags' && s in mags'
    requires mags' == mags[p := mags'[p]][s := mags'[s]]
    requires forall m: nat :: m == p || m == s ==> |mags'[m].rounds| == MAGAZINE_SIZE && mags'[m].roundCount == 0
    ensures Stock(z, slabs, mags', place)
  {
    StockAfterMagazine(z, slabs, mags, mags[p := mags'[p]], place, p);
    StockAfterMagazine(z, slabs, mags[p := mags'[p]], mags', place, s);
  }

  lemma {:induction false} SlotsAfterSpare(mags: map<nat, Magazine>, mags': map<nat, Magazine>, slot: map<nat, Slot>, slot': map<nat, Slot>, primary: seq<nat>, secondary: seq<nat>, full: seq<nat>, empty: seq<nat>, m: nat)
    requires SlotsOk(mags, slot, primary, secondary, full, empty) && m !in mags && m in mags' && mags' == mags[m := mags'[m]]
    requires mags'[m].roundCount == 0 && slot' == slot[m := EmptyDepot]
    ensures SlotsOk(mags', slot', primary, secondary, full, [m] + empty)
  {
    assert m !in empty && m !in full;
    assert NoDup([m] + empty);
    forall k: nat | k in slot' ensures SlotOk(mags', slot', primary, secondary, full, [m] + empty, k) {
      if k != m { assert SlotOk(mags, slot, primary, secondary, full, empty, k); }
    }
    forall c: nat | c < |primary| ensures CpuOk(slot', primary, secondary, c) { assert CpuOk(slot, primary, secondary, c); }
  }

  lemma {:induction false} SlotsAfterCpu(mags: map<nat, Magazine>, mags': map<nat, Magazine>, slot: map<nat, Slot>, slot': map<nat, Slot>, primary: seq<nat>, secondary: seq<nat>, full: seq<nat>, empty: seq<nat>, p: nat, s: nat)
    requires SlotsOk(mags, slot, primary, secondary, full, empty) && p !in mags && s !in mags && p != s && p in mags' && s in mags'
    requires mags' == mags[p := mags'[p]][s := mags'[s]] && mags'[s].roundCount == 0
    requires slot' == slot[p := Primary(|primary|)][s := Secondary(|primary|)]
    ensures SlotsOk(mags', slot', primary + [p], secondary + [s], full, empty)
  {
    var primary', secondary' := primary + [p], secondary + [s];
    assert p !in empty && p !in full && s !in empty && s !in full;
    forall k: nat | k in slot' ensures SlotOk(mags', slot', primary', secondary', full, empty, k) {
      if k != p && k != s { assert SlotOk(mags, slot, primary, secondary, full, empty, k); }
    }
    forall c: nat | c < |primary'| ensures CpuOk(slot', primary', secondary', c) {
      if c < |primary| { assert CpuOk(slot, primary, secondary, c); }
    }
  }

  // ---------- the cache ----------

  ghost function Clients(place: map<nat, Place>): set<nat> { set o | o in place && place[o] == Client }

  /** A client got exactly o; no other object changed hands between clients and the cache. */
  ghost predicate Granted(place: map<nat, Place>, place': map<nat, Place>, o: nat) {
    && place.Keys <= place'.Keys && o in place'
    && o !in Clients(place) && Clients(place') == Clients(place) + {o}
  }

  lemma {:induction false} ClientsWithout(place: map<nat, Place>, o: nat, to: Place)
    requires o in place && to != Client
    ensures Clients(place[o := to]) == Clients(place) - {o} && place[o := to].Keys == place.Keys
  {
  }

  /** Magazine m is `more` with o on top and `less` without it; no other magazine differs. */
  ghost predicate Tops(more: map<nat, Magazine>, less: map<nat, Magazine>, m: nat, o: nat) {
    && m in more && m in less && less.Keys == more.Keys
    && Live(more[m]) == Live(less[m]) + [o] && more[m].roundCount == less[m].roundCount + 1
    && forall k: nat :: k in more && k != m ==> less[k] == more[k]
  }

  class SlabCache {
    const z: Sizes
    const cpuCacheEnabled: bool
    var slabs: map<nat, SlabModel.Slab>
    var partial: seq<nat>
    var fullSlabs: seq<nat>
    var mags: map<nat, Magazine>
    var primary: seq<nat>
    var secondary: seq<nat>
    var magsFull: seq<nat>
    var magsEmpty: seq<nat>
    ghost var place: map<nat, Place>
    ghost var slot: map<nat, Slot>

    ghost predicate Valid() reads this {
      && Stock(z, slabs, mags, place) && ListsOk(slabs, partial, fullSlabs)
      && SlotsOk(mags, slot, primary, secondary, magsFull, magsEmpty)
    }

    /** A new CPU's magazines: the primary full, the secondary empty. */
    ghost predicate Stocked(c: nat) reads this {
      && c < |primary| == |secondary| && primary[c] in mags && mags[primary[c]].roundCount == MAGAZINE_SIZE
      && secondary[c] in mags && mags[secondary[c]].roundCount == 0
    }

    /** slab_cache_create: twice as many empty spare magazines as CPUs, and for each CPU a full primary and an empty secondary. */
    constructor (z: Sizes, enabled: bool, cpus: nat)
      requires z.Ok()
      ensures Valid() && this.z == z && cpuCacheEnabled == enabled
      ensures Clients(place) == {} && |primary| == if enabled then cpus else 0
      ensures forall c: nat {:trigger Stocked(c)} :: c < |primary| ==> Stocked(c)
      ensures |magsEmpty| == 2 * cpus && magsFull == []
    {
      this.z, cpuCacheEnabled := z, enabled;
      slabs, partial, fullSlabs := map[], [], [];
      mags, primary, secondary, magsFull, magsEmpty := map[], [], [], [], [];
      place, slot := map[], map[];
      new;
      assert ListsOk(slabs, partial, fullSlabs) by { assert forall b: nat :: ListedOk(slabs, partial, fullSlabs, b); }
      var i := 0;
      while i < 2 * cpus
        invariant Valid() && place == map[] && primary == [] && this.z == z
        invariant 0 <= i <= 2 * cpus && |magsEmpty| == i && magsFull == []
      {
        AddSpare();
        i := i + 1;
      }
      if enabled {
        i := 0;
        while i < cpus
          invariant 0 <= i <= cpus && Valid() && Clients(place) == {} && |primary| == i && this.z == z
          invariant |magsEmpty| == 2 * cpus && magsFull == []
          invariant forall c: nat {:trigger Stocked(c)} :: c < |primary| ==> Stocked(c)
        {
          AddCpu();
          i := i + 1;
        }
      }
    }

    /** An empty magazine for the depot. */
    method AddSpare()
      requires Valid()
      modifies this`mags, this`slot, this`magsEmpty
      ensures Valid() && |magsEmpty| == |old(magsEmpty)| + 1
    {
      ghost var unused := Division.AboveAll(mags.Keys);
      assert unused !in mags;
      var m :| m !in mags;
      ghost var mags0, slot0 := mags, slot;
      mags := mags[m := Magazine(seq(MAGAZINE_SIZE, _ => 0), 0)];
      slot := slot[m := EmptyDepot];
      StockAfterMagazine(z, slabs, mags0, mags, place, m);
      SlotsAfterSpare(mags0, mags, slot0, slot, primary, secondary, magsFull, magsEmpty, m);
      magsEmpty := [m] + magsEmpty;
    }

    /** Any two magazines that the cache does not have. */
    method FreshMagazines() returns (p: nat, s: nat)
      ensures p !in mags && s !in mags && p != s
    {
      ghost var unused := Division.AboveAll(mags.Keys);
      assert unused !in mags && unused + 1 !in mags;
      p, s :| p !in mags && s !in mags && p != s;
    }

    /** Two empty magazines for one more CPU. */
    method NewMagazines() returns (p: nat, s: nat)
      requires Valid()
      modifies this`mags, this`slot, this`primary, this`secondary
      ensures Valid() && p != s && primary == old(primary) + [p] && secondary == old(secondary) + [s]
      ensures p in mags && s in mags && mags[p].roundCount == 0 && mags[s].roundCount == 0
      ensures p !in old(mags) && s !in old(mags) && forall m: nat :: m in old(mags) ==> m in mags && mags[m] == old(mags[m])
    {
      p, s := FreshMagazines();
      var cpu, blank := |primary|, Magazine(seq(MAGAZINE_SIZE, _ => 0), 0);
      var mags' := mags[p := blank][s := blank];
      ghost var slot' := slot[p := Primary(cpu)][s := Secondary(cpu)];
      StockAfterTwo(z, slabs, mags, mags', place, p, s);
      SlotsAfterCpu(mags, mags', slot, slot', primary, secondary, magsFull, magsEmpty, p, s);
      mags, slot, primary, secondary := mags', slot', primary + [p], secondary + [s];
    }

    /** The magazines of one more CPU; the primary one is filled from the slabs. */
    method AddCpu()
      requires Valid()
      modifies this
      ensures Valid() && Clients(place) == old(Clients(place)) && |primary| == |old(primary)| + 1
      ensures Stocked(|old(primary)|) && forall c: nat {:trigger Stocked(c)} :: c < |old(primary)| && old(Stocked(c)) ==> Stocked(c)
      ensures magsEmpty == old(magsEmpty) && magsFull == old(magsFull)
    {
      var cpu := |primary|;
      var p, s := NewMagazines();
      FillPrimary(cpu, p);
    }

    method FillPrimary(cpu: nat, m: nat)
      requires Valid() && cpu < |primary| && m == primary[cpu] && m in mags && mags[m].roundCount == 0
      modifies this`slabs, this`partial, this`fullSlabs, this`place, this`mags
      ensures Valid() && Clients(place) == old(Clients(place)) && mags.Keys == old(mags.Keys) && mags[m].roundCount == MAGAZINE_SIZE
      ensures forall k: nat :: k in mags && k != m ==> mags[k] == old(mags[k])
    {
      var j := 0;
      while j < MAGAZINE_SIZE
        invariant 0 <= j <= MAGAZINE_SIZE && Valid() && Clients(place) == old(Clients(place))
        invariant mags.Keys == old(mags.Keys) && mags[m].roundCount == j
        invariant forall k: nat :: k in mags && k != m ==> mags[k] == old(mags[k])
      {
        FillRound(cpu, m);
        j := j + 1;
      }
    }

    /** One object of the slabs for a primary magazine. */
    method FillRound(cpu: nat, m: nat)
      requires Valid() && cpu < |primary| && m == primary[cpu] && m in mags && mags[m].roundCount < MAGAZINE_SIZE
      modifies this`slabs, this`partial, this`fullSlabs, this`place, this`mags
      ensures Valid() && Clients(place) == old(Clients(place)) && mags.Keys == old(mags.Keys) && mags[m].roundCount == old(mags[m].roundCount) + 1
      ensures forall k: nat :: k in mags && k != m ==> mags[k] == old(mags[k])
    {
      var obj := DirectAlloc();
      PushRound(cpu, obj);
    }

    /** A block for a slab: any one that is not in use and aligned to its size. */
    method FreshBlock() returns (base: nat)
      requires z.Ok()
      ensures base !in slabs && Division.Rem(base, z.bytes) == 0
    {
      ghost var f := Division.AboveAll(slabs.Keys);
      ghost var unused := Division.MultipleAbove(z.bytes, f);
      assert unused !in slabs;
      base :| base !in slabs && Division.Rem(base, z.bytes) == 0;
    }

    /** The loop of cache_make_slab. */
    method Carve(base: nat) returns (freelist: seq<nat>, freeCount: nat)
      requires z.Ok()
      ensures freelist == Carved(z, base, z.Capacity()) && freeCount == z.Capacity()
    {
      freelist, freeCount := [], 0;
      var i := 0;
      while i < z.Capacity()
        invariant 0 <= i <= z.Capacity() && freelist == Carved(z, base, i) && freeCount == i
      {
        freelist, freeCount, i := [z.At(base, i)] + freelist, freeCount + 1, i + 1;
      }
    }

    /** Carve a fresh block into objects (cache_make_slab); the block is the page allocator's choice, aligned to its size. */
    method MakeSlab() returns (base: nat)
      requires Valid() && partial == []
      modifies this`slabs, this`partial, this`place
      ensures Valid() && partial == [base] && base !in old(slabs) && base in slabs && slabs == old(slabs)[base := slabs[base]]
      ensures slabs[base].freeCount == |slabs[base].freelist| == z.Capacity()
      ensures forall o: nat :: o in slabs[base].freelist <==> z.ObjectOf(o, base)
      ensures old(place.Keys) <= place.Keys && Clients(place) == old(Clients(place))
    {
      base := FreshBlock();
      var freelist, freeCount := Carve(base);
      ghost var slabs0, place0 := slabs, place;
      slabs := slabs[base := SlabModel.Slab(freelist, freeCount)];
      partial := [base];
      place := map o | o in place.Keys + (set x | x in freelist) :: if o in place then place[o] else InSlab;
      CarveKeeps(z, slabs0, slabs, mags, place0, place, base);
      ListsAfterMake(slabs0, slabs, [], fullSlabs, base);
      forall o: nat ensures o in freelist <==> z.ObjectOf(o, base) { CarvedHas(z, base, z.Capacity(), o); }
      CarvedHas(z, base, z.Capacity(), 0);
    }

    /** Take an object from the first slab that has one. */
    method DirectAlloc() returns (obj: nat)
      requires Valid()
      modifies this`slabs, this`partial, this`fullSlabs, this`place
      ensures Valid() && Granted(old(place), place, obj)
      ensures old(partial) != [] ==> slabs.Keys == old(slabs.Keys) && old(partial)[0] in old(slabs) && [obj] <= old(slabs)[old(partial)[0]].freelist
      ensures old(partial) == [] ==> z.Base(obj) !in old(slabs) && slabs.Keys == old(slabs.Keys) + {z.Base(obj)}
    {
      if partial == [] { var _ := MakeSlab(); }
      obj := TakeFirst();
    }

    /** The first free object of the first partial slab. */
    method TakeFirst() returns (obj: nat)
      requires Valid() && partial != []
      modifies this`slabs, this`partial, this`fullSlabs, this`place
      ensures Valid() && Granted(old(place), place, obj) && slabs.Keys == old(slabs.Keys)
      ensures old(partial)[0] in slabs && [obj] <= old(slabs)[old(partial)[0]].freelist && z.Base(obj) == old(partial)[0]
    {
      ghost var slabs0, place0 := slabs, place;
      var b := partial[0];
      assert ListedOk(slabs, partial, fullSlabs, b) && SlabOk(z, slabs, place, b);
      obj := slabs[b].freelist[0];
      assert obj in slabs[b].freelist;
      slabs := slabs[b := SlabModel.Slab(slabs[b].freelist[1..], slabs[b].freeCount - 1)];
      place := place[obj := Client];
      TakeKeeps(z, slabs0, slabs, mags, place0, place, b, obj);
      ListsAfterTake(slabs0, slabs, partial, fullSlabs, b);
      if slabs[b].freeCount == 0 {
        partial := partial[1..];
        fullSlabs := [b] + fullSlabs;
      }
    }

    /** Give an object back to the slab that its address leads to. */
    method DirectFree(obj: nat)
      requires Valid() && obj in place && place[obj] == Client
      modifies this`slabs, this`partial, this`fullSlabs, this`place
      ensures Valid() && place == old(place)[obj := InSlab]
    {
      ghost var slabs0, place0 := slabs, place;
      var b := z.Base(obj);
      assert ObjectOk(z, slabs, mags, place, obj);
      var wasFull := slabs[b].freeCount == 0;
      slabs := slabs[b := SlabModel.Slab([obj] + slabs[b].freelist, slabs[b].freeCount + 1)];
      place := place[obj := InSlab];
      GiveKeeps(z, slabs0, slabs, mags, place0, place, b, obj);
      ListsAfterGive(slabs0, slabs, partial, fullSlabs, b);
      if wasFull {
        fullSlabs := Delete(fullSlabs, b);
        partial := [b] + partial;
      }
    }

    /** Facts about the two magazines of a CPU. */
    lemma {:induction false} AtCpu(cpu: nat)
      requires Valid() && cpu < |primary|
      ensures cpu < |secondary| && primary[cpu] in mags && secondary[cpu] in mags
      ensures |mags[primary[cpu]].rounds| == MAGAZINE_SIZE && mags[primary[cpu]].roundCount <= MAGAZINE_SIZE
      ensures mags[secondary[cpu]].roundCount == 0 || mags[secondary[cpu]].roundCount == MAGAZINE_SIZE
    {
      assert CpuOk(slot, primary, secondary, cpu);
      assert SlotOk(mags, slot, primary, secondary, magsFull, magsEmpty, secondary[cpu]);
      assert MagazineOk(mags, place, primary[cpu]);
    }

    /** Pop a round of the primary magazine. */
    method PopRound(cpu: nat) returns (obj: nat)
      requires Valid() && cpu < |primary| && primary[cpu] in mags && mags[primary[cpu]].roundCount > 0
      modifies this`mags, this`place
      ensures Valid() && Granted(old(place), place, obj) && place.Keys == old(place.Keys)
      ensures Tops(old(mags), mags, primary[cpu], obj)
    {
      AtCpu(cpu);
      ghost var mags0, place0 := mags, place;
      var m := primary[cpu];
      assert MagazineOk(mags, place, m);
      obj := mags[m].rounds[mags[m].roundCount - 1];
      assert Live(mags[m])[mags[m].roundCount - 1] == obj;
      mags := mags[m := Popped(mags[m])];
      place := place[obj := Client];
      PopKeeps(z, slabs, mags0, mags, place0, place, m, obj);
      SlotsAfterFill(mags0, mags, slot, primary, secondary, magsFull, magsEmpty, cpu);
    }

    /** Push a round on the primary magazine. */
    method PushRound(cpu: nat, obj: nat)
      requires Valid() && cpu < |primary| && primary[cpu] in mags && mags[primary[cpu]].roundCount < MAGAZINE_SIZE
      requires obj in place && place[obj] == Client
      modifies this`mags, this`place
      ensures Valid() && place == old(place)[obj := InMagazine(primary[cpu])]
      ensures mags.Keys == old(mags.Keys) && Tops(mags, old(mags), primary[cpu], obj)
    {
      AtCpu(cpu);
      ghost var mags0, place0 := mags, place;
      var m := primary[cpu];
      mags := mags[m := Pushed(mags[m], obj)];
      place := place[obj := InMagazine(m)];
      PushKeeps(z, slabs, mags0, mags, place0, place, m, obj);
      SlotsAfterFill(mags0, mags, slot, primary, secondary, magsFull, magsEmpty, cpu);
    }

    method Swap(cpu: nat)
      requires Valid() && cpu < |primary| == |secondary| && primary[cpu] in mags
      requires mags[primary[cpu]].roundCount == 0 || mags[primary[cpu]].roundCount == MAGAZINE_SIZE
      modifies this`primary, this`secondary, this`slot
      ensures Valid() && primary == old(primary)[cpu := old(secondary)[cpu]] && secondary == old(secondary)[cpu := old(primary)[cpu]]
    {
      ghost var slot0 := slot;
      slot := slot[primary[cpu] := Secondary(cpu)][secondary[cpu] := Primary(cpu)];
      SlotsAfterSwap(mags, slot0, slot, primary, secondary, magsFull, magsEmpty, cpu);
      var mag := primary[cpu];
      primary := primary[cpu := secondary[cpu]];
      secondary := secondary[cpu := mag];
    }

    /** Exchange the empty secondary magazine for a full one from the depot. */
    method Refill(cpu: nat)
      requires Valid() && cpu < |primary| == |secondary| && primary[cpu] in mags && secondary[cpu] in mags && magsFull != []
      requires mags[primary[cpu]].roundCount == 0 && mags[secondary[cpu]].roundCount == 0
      modifies this`primary, this`secondary, this`slot, this`magsFull, this`magsEmpty
      ensures Valid() && primary == old(primary)[cpu := old(magsFull)[0]] && primary[cpu] in mags && mags[primary[cpu]].roundCount == MAGAZINE_SIZE
    {
      ghost var slot0 := slot;
      slot := slot[secondary[cpu] := EmptyDepot][primary[cpu] := Secondary(cpu)][magsFull[0] := Primary(cpu)];
      SlotsAfterRefill(mags, slot0, slot, primary, secondary, magsFull, magsEmpty, cpu);
      magsEmpty := [secondary[cpu]] + magsEmpty;
      secondary := secondary[cpu := primary[cpu]];
      primary := primary[cpu := magsFull[0]];
      magsFull := magsFull[1..];
    }

    /** Exchange the full secondary magazine for an empty one from the depot. */
    method Drain(cpu: nat)
      requires Valid() && cpu < |primary| == |secondary| && primary[cpu] in mags && secondary[cpu] in mags && magsEmpty != []
      requires mags[primary[cpu]].roundCount == MAGAZINE_SIZE && mags[secondary[cpu]].roundCount == MAGAZINE_SIZE
      modifies this`primary, this`secondary, this`slot, this`magsFull, this`magsEmpty
      ensures Valid() && |primary| == old(|primary|) && primary[cpu] in mags && mags[primary[cpu]].roundCount == 0
    {
      ghost var slot0 := slot;
      slot := slot[secondary[cpu] := FullDepot][primary[cpu] := Secondary(cpu)][magsEmpty[0] := Primary(cpu)];
      SlotsAfterDrain(mags, slot0, slot, primary, secondary, magsFull, magsEmpty, cpu);
      magsFull := [secondary[cpu]] + magsFull;
      secondary := secondary[cpu := primary[cpu]];
      primary := primary[cpu := magsEmpty[0]];
      magsEmpty := magsEmpty[1..];
    }

    /** There is a round for this CPU: in its magazines or in the depot. */
    ghost predicate HasRound(cpu: nat)
      requires Valid() && cpu < |primary|
      reads this
    {
      AtCpu(cpu);
      mags[primary[cpu]].roundCount > 0 || mags[secondary[cpu]].roundCount > 0 || magsFull != []
    }

    /** There is room for a round of this CPU. */
    ghost predicate HasRoom(cpu: nat)
      requires Valid() && cpu < |primary|
      reads this
    {
      AtCpu(cpu);
      mags[primary[cpu]].roundCount < MAGAZINE_SIZE || mags[secondary[cpu]].roundCount < MAGAZINE_SIZE || magsEmpty != []
    }

    /** slab_allocate: a client gets one object that no client had, a round while there is one; `retries` counts the jumps back. */
    method Allocate(cpu: nat) returns (obj: nat, retries: nat)
      requires Valid() && (cpuCacheEnabled ==> cpu < |primary|)
      modifies this
      ensures Valid() && Granted(old(place), place, obj) && retries <= 1
      ensures mags.Keys == old(mags.Keys) && |primary| == old(|primary|)
      ensures cpuCacheEnabled && old(HasRound(cpu)) ==> slabs == old(slabs) && Tops(old(mags), mags, primary[cpu], obj)
      ensures cpuCacheEnabled && old(AtCpu(cpu); mags[primary[cpu]].roundCount > 0) ==> primary == old(primary)
      ensures cpuCacheEnabled && old(AtCpu(cpu); mags[primary[cpu]].roundCount == 0 && mags[secondary[cpu]].roundCount > 0) ==>
        primary[cpu] == old(AtCpu(cpu); secondary[cpu]) && magsFull == old(magsFull)
      ensures !cpuCacheEnabled || !old(HasRound(cpu)) ==> mags == old(mags) && primary == old(primary)
    {
      retries := 0;
      if !cpuCacheEnabled { obj := DirectAlloc(); return; }
      AtCpu(cpu);
      while true
        invariant Valid() && |primary| == old(|primary|) && place == old(place) && mags == old(mags)
        invariant retries <= 1 && primary[cpu] in mags && (retries == 1 ==> mags[primary[cpu]].roundCount > 0) && slabs == old(slabs)
        invariant retries == 0 ==> primary == old(primary) && secondary == old(secondary) && magsFull == old(magsFull)
        invariant retries == 1 ==> old(HasRound(cpu)) && old(AtCpu(cpu); mags[primary[cpu]].roundCount == 0)
        invariant retries == 1 && old(AtCpu(cpu); mags[secondary[cpu]].roundCount > 0) ==> primary[cpu] == old(AtCpu(cpu); secondary[cpu]) && magsFull == old(magsFull)
        decreases 1 - retries
      {
        AtCpu(cpu);
        if mags[primary[cpu]].roundCount > 0 {
          obj := PopRound(cpu);
          return;
        }
        if mags[secondary[cpu]].roundCount == MAGAZINE_SIZE {
          Swap(cpu);
        } else if magsFull != [] {
          Refill(cpu);
        } else {
          obj := DirectAlloc();
          return;
        }
        retries := retries + 1;
      }
    }

    /** A full primary magazine gives way to an empty one, from the same CPU or the depot, if there is one. */
    method MakeRoom(cpu: nat) returns (drained: bool)
      requires Valid() && cpu < |primary| && primary[cpu] in mags && mags[primary[cpu]].roundCount == MAGAZINE_SIZE
      modifies this`primary, this`secondary, this`slot, this`magsFull, this`magsEmpty
      ensures Valid() && |primary| == old(|primary|) && primary[cpu] in mags
      ensures drained == old(HasRoom(cpu)) && (if drained then mags[primary[cpu]].roundCount == 0 else primary == old(primary))
    {
      AtCpu(cpu);
      if mags[secondary[cpu]].roundCount == 0 {
        Swap(cpu);
        return true;
      }
      if magsEmpty != [] {
        Drain(cpu);
        return true;
      }
      return false;
    }

    /** slab_free: the client's object goes back to the cache. */
    method Free(cpu: nat, obj: nat) returns (retries: nat)
      requires Valid() && (cpuCacheEnabled ==> cpu < |primary|) && obj in place && place[obj] == Client
      modifies this
      ensures Valid() && retries <= 1
      ensures place.Keys == old(place.Keys) && Clients(place) == old(Clients(place)) - {obj}
      ensures mags.Keys == old(mags.Keys) && |primary| == old(|primary|)
      ensures cpuCacheEnabled && old(HasRoom(cpu)) ==> slabs == old(slabs) && Tops(mags, old(mags), primary[cpu], obj)
      ensures !cpuCacheEnabled || !old(HasRoom(cpu)) ==> mags == old(mags) && primary == old(primary) && place == old(place)[obj := InSlab]
    {
      retries := 0;
      ClientsWithout(place, obj, InSlab);
      if !cpuCacheEnabled { DirectFree(obj); return; }
      AtCpu(cpu);
      while true
        invariant Valid() && |primary| == old(|primary|) && place == old(place) && mags == old(mags)
        invariant retries <= 1 && primary[cpu] in mags && (retries == 1 ==> mags[primary[cpu]].roundCount < MAGAZINE_SIZE) && slabs == old(slabs)
        invariant retries == 0 ==> primary == old(primary) && secondary == old(secondary) && magsEmpty == old(magsEmpty)
        invariant retries == 1 ==> old(HasRoom(cpu))
        decreases 1 - retries
      {
        AtCpu(cpu);
        if mags[primary[cpu]].roundCount < MAGAZINE_SIZE {
          ClientsWithout(place, obj, InMagazine(primary[cpu]));
          PushRound(cpu, obj);
          return;
        }
        var drained := MakeRoom(cpu);
        if !drained {
          DirectFree(obj);
          return;
        }
        retries := retries + 1;
      }
    }

    /** What a CPU frees it gets back at once, unless there was no room for it in a magazine. */
    method FreeThenAllocate(cpu: nat, obj: nat) returns (again: nat)
      requires Valid() && cpuCacheEnabled && cpu < |primary| && obj in place && place[obj] == Client
      modifies this
      ensures Valid() && Clients(place) == old(Clients(place)) - {obj} + {again}
      ensures again == obj <==> old(HasRoom(cpu))
    {
      ghost var room := HasRoom(cpu);
      var _ := Free(cpu, obj);
      AtCpu(cpu);
      ghost var place1, live := place, Live(mags[primary[cpu]]);
      assert MagazineOk(mags, place, primary[cpu]);
      assert HasRound(cpu);
      var retries;
      again, retries := Allocate(cpu);
      assert live[|live| - 1] == again;
      assert place1[again].InMagazine?;
    }
  }
}
