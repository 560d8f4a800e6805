/**
 The stock of a slab cache: slabs with their freelists, magazines with their rounds, and
 where each object is. Every step moves one object, or adds the objects of one slab.
 */
module SlabModel {
  import opened Basics
  import Division

  const HEADER: nat := 48          // sizeof(slab_t)
  const MAGAZINE_SIZE: nat := 32

  datatype Slab = Slab(freelist: seq<nat>, freeCount: nat)

  datatype Magazine = Magazine(rounds: seq<nat>, roundCount: nat)

  datatype Place = InSlab | InMagazine(id: nat) | Client

  /** The size of an object, and the bytes of a slab's block. */
  datatype Sizes = Sizes(size: nat, bytes: nat) {
    /** slab_cache_create demands 8 bytes for the link, cache_make_slab at least one object. */
    predicate Ok() { size >= 8 && bytes >= HEADER && Capacity() > 0 }

    function Capacity(): nat
      requires size >= 8 && bytes >= HEADER
    {
      Division.Quot(bytes - HEADER, size)
    }

    /** The i-th object of the slab at `base`. */
    function At(base: nat, i: nat): nat { base + HEADER + Division.Times(i, size) }

    /** The mask of slab_direct_free. */
    function Base(o: nat): nat
      requires bytes > 0
    {
      o - Division.Rem(o, bytes)
    }

    ghost predicate ObjectOf(o: nat, base: nat)
      requires Ok()
    {
      exists i: nat :: i < Capacity() && o == At(base, i)
    }
  }

  /** The rounds of a magazine that hold objects. */
  function Live(m: Magazine): seq<nat> {
    if m.roundCount <= |m.rounds| then m.rounds[..m.roundCount] else m.rounds
  }

  // ---------- carving ----------

  /** Objects follow the header one after the other, and there are as many as the block holds. */
  lemma {:induction false} ObjectFits(z: Sizes, base: nat, i: nat)
    requires z.Ok()
    ensures z.At(base, 0) == base + HEADER && z.At(base, i + 1) == z.At(base, i) + z.size
    ensures i < z.Capacity() <==> z.At(base, i) + z.size <= base + z.bytes
  {
    Division.TimesFit(i, z.bytes - HEADER, z.size);
  }

  /** Objects of one slab do not overlap. */
  lemma {:induction false} ObjectsApart(z: Sizes, base: nat, i: nat, j: nat)
    requires i < j
    ensures z.At(base, i) + z.size <= z.At(base, j)
  {
    Division.TimesGrow(i, j, z.size);
  }

  /** The mask leads from an object back to its slab. */
  lemma {:induction false} MaskFindsSlab(z: Sizes, o: nat, base: nat)
    requires z.Ok() && z.ObjectOf(o, base) && Division.Rem(base, z.bytes) == 0
    ensures z.Base(o) == base && base + HEADER <= o && o + z.size <= base + z.bytes
  {
    var i: nat :| i < z.Capacity() && o == z.At(base, i);
    ObjectFits(z, base, i);
    Division.FloorOf(z.bytes, base, o);
  }

  predicate Apart(z: Sizes, o: nat, p: nat) { o + z.size <= p || p + z.size <= o }

  /** Two objects share no byte, of one slab or of two. */
  lemma {:induction false} ObjectsDisjoint(z: Sizes, o: nat, base: nat, o': nat, base': nat)
    requires z.Ok() && z.ObjectOf(o, base) && z.ObjectOf(o', base') && o != o'
    requires Division.Rem(base, z.bytes) == 0 && Division.Rem(base', z.bytes) == 0
    ensures Apart(z, o, o')
  {
    MaskFindsSlab(z, o, base);
    MaskFindsSlab(z, o', base');
    if base == base' {
      var i: nat :| i < z.Capacity() && o == z.At(base, i);
      var j: nat :| j < z.Capacity() && o' == z.At(base, j);
      if i < j { ObjectsApart(z, base, i, j); } else { ObjectsApart(z, base, j, i); }
    } else if base < base' {
      Division.MultiplesApart(z.bytes, base, base');
    } else {
      Division.MultiplesApart(z.bytes, base', base);
    }
  }

  /** The freelist after k objects have been carved: the last one first. */
  function Carved(z: Sizes, base: nat, k: nat): seq<nat> {
    if k == 0 then [] else [z.At(base, k - 1)] + Carved(z, base, k - 1)
  }

  lemma {:induction false} CarvedHas(z: Sizes, base: nat, k: nat, o: nat)
    ensures |Carved(z, base, k)| == k
    ensures o in Carved(z, base, k) <==> exists i: nat :: i < k && o == z.At(base, i)
  {
    if k > 0 { CarvedHas(z, base, k - 1, o); }
  }

  lemma {:induction false} CarvedNoDup(z: Sizes, base: nat, k: nat)
    requires z.size > 0
    ensures NoDup(Carved(z, base, k))
  {
    if k > 0 {
      CarvedNoDup(z, base, k - 1);
      var first := z.At(base, k - 1);
      CarvedHas(z, base, k - 1, first);
      forall i: nat | i < k - 1 ensures first != z.At(base, i) {
        ObjectsApart(z, base, i, k - 1);
      }
      assert first !in Carved(z, base, k - 1);
    }
  }

  // ---------- the stock ----------

  /** Object o is where `place` says. */
  ghost predicate ObjectOk(z: Sizes, slabs: map<nat, Slab>, mags: map<nat, Magazine>, place: map<nat, Place>, o: nat)
    requires z.Ok()
  {
    && o in place && z.Base(o) in slabs && z.ObjectOf(o, z.Base(o))
    && match place[o]
       case InSlab => o in slabs[z.Base(o)].freelist
       case InMagazine(m) => m in mags && o in Live(mags[m])
       case Client => true
  }

  /** A slab holds what `place` says is in it, once. */
  ghost predicate SlabOk(z: Sizes, slabs: map<nat, Slab>, place: map<nat, Place>, b: nat)
    requires z.Ok()
  {
    && b in slabs && Division.Rem(b, z.bytes) == 0 && slabs[b].freeCount == |slabs[b].freelist| && NoDup(slabs[b].freelist)
    && (forall o: nat :: o in slabs[b].freelist ==> o in place && place[o] == InSlab && z.Base(o) == b)
    && (forall o: nat :: z.ObjectOf(o, b) ==> o in place)
  }

  ghost predicate MagazineOk(mags: map<nat, Magazine>, place: map<nat, Place>, m: nat) {
    && m in mags && |mags[m].rounds| == MAGAZINE_SIZE && mags[m].roundCount <= MAGAZINE_SIZE && NoDup(Live(mags[m]))
    && forall o: nat :: o in Live(mags[m]) ==> o in place && place[o] == InMagazine(m)
  }

  /** Each object of each slab is in exactly one place: its slab's freelist, one slot of one magazine, or a client. */
  ghost predicate Stock(z: Sizes, slabs: map<nat, Slab>, mags: map<nat, Magazine>, place: map<nat, Place>) {
    && z.Ok()
    && (forall o: nat {:trigger ObjectOk(z, slabs, mags, place, o)} :: o in place ==> ObjectOk(z, slabs, mags, place, o))
    && (forall b: nat {:trigger SlabOk(z, slabs, place, b)} :: b in slabs ==> SlabOk(z, slabs, place, b))
    && (forall m: nat {:trigger MagazineOk(mags, place, m)} :: m in mags ==> MagazineOk(mags, place, m))
  }

  /** What the stock says of an object, in terms of the lists alone. */
  lemma {:induction false} ExactlyOnePlace(z: Sizes, slabs: map<nat, Slab>, mags: map<nat, Magazine>, place: map<nat, Place>, b: nat, o: nat)
    requires Stock(z, slabs, mags, place) && b in slabs && z.ObjectOf(o, b)
    ensures o in place
    ensures forall k: nat :: k in slabs ==> (o in slabs[k].freelist <==> k == b && place[o] == InSlab)
    ensures forall m: nat :: m in mags ==> (o in Live(mags[m]) <==> place[o] == InMagazine(m))
    ensures forall i: nat, j: nat :: i < j < |slabs[b].freelist| ==> !(slabs[b].freelist[i] == o == slabs[b].freelist[j])
    ensures place[o].InMagazine? ==> place[o].id in mags && o in Live(mags[place[o].id]) && NoDup(Live(mags[place[o].id]))
  {
    assert SlabOk(z, slabs, place, b);
    MaskFindsSlab(z, o, b);
    assert ObjectOk(z, slabs, mags, place, o);
    forall k: nat | k in slabs ensures o in slabs[k].freelist <==> k == b && place[o] == InSlab { assert SlabOk(z, slabs, place, k); }
    forall m: nat | m in mags ensures o in Live(mags[m]) <==> place[o] == InMagazine(m) { assert MagazineOk(mags, place, m); }
    if place[o].InMagazine? { assert MagazineOk(mags, place, place[o].id); }
  }

  /** At any time the objects of a cache, wherever they are, lie in their slabs' blocks behind the headers and share no byte. */
  lemma {:induction false} StockApart(z: Sizes, slabs: map<nat, Slab>, mags: map<nat, Magazine>, place: map<nat, Place>, o: nat, o': nat)
    requires Stock(z, slabs, mags, place) && o in place && o' in place
    ensures z.Base(o) in slabs && z.Base(o) + HEADER <= o && o + z.size <= z.Base(o) + z.bytes
    ensures o != o' ==> o + z.size <= o' || o' + z.size <= o
  {
    assert ObjectOk(z, slabs, mags, place, o) && ObjectOk(z, slabs, mags, place, o');
    var b, b' := z.Base(o), z.Base(o');
    assert SlabOk(z, slabs, place, b) && SlabOk(z, slabs, place, b');
    MaskFindsSlab(z, o, b);
    if o != o' { ObjectsDisjoint(z, o, b, o', b'); }
  }

  function Pushed(m: Magazine, o: nat): Magazine
    requires m.roundCount < |m.rounds|
  {
    Magazine(m.rounds[m.roundCount := o], m.roundCount + 1)
  }

  function Popped(m: Magazine): Magazine
    requires m.roundCount > 0
  {
    Magazine(m.rounds, m.roundCount - 1)
  }

  /** Only object o may be elsewhere. */
  ghost predicate Moved(place: map<nat, Place>, place': map<nat, Place>, o: nat, to: Place) {
    o in place && place' == place[o := to]
  }

  lemma {:induction false} PushKeeps(z: Sizes, slabs: map<nat, Slab>, mags: map<nat, Magazine>, mags': map<nat, Magazine>,
                                     place: map<nat, Place>, place': map<nat, Place>, m: nat, o: nat)
    requires Stock(z, slabs, mags, place) && m in mags && mags[m].roundCount < MAGAZINE_SIZE
    requires |mags[m].rounds| == MAGAZINE_SIZE && mags' == mags[m := Pushed(mags[m], o)]
    requires Moved(place, place', o, InMagazine(m)) && place[o] == Client
    ensures Stock(z, slabs, mags', place')
  {
    assert MagazineOk(mags, place, m);
    assert Live(mags'[m]) == Live(mags[m]) + [o];
    forall x: nat | x in place' ensures ObjectOk(z, slabs, mags', place', x) { assert ObjectOk(z, slabs, mags, place, x); }
    forall b: nat | b in slabs ensures SlabOk(z, slabs, place', b) { assert SlabOk(z, slabs, place, b); }
    forall k: nat | k in mags' ensures MagazineOk(mags', place', k) { assert MagazineOk(mags, place, k); }
  }

  lemma {:induction false} PopKeeps(z: Sizes, slabs: map<nat, Slab>, mags: map<nat, Magazine>, mags': map<nat, Magazine>,
                                    place: map<nat, Place>, place': map<nat, Place>, m: nat, o: nat)
    requires Stock(z, slabs, mags, place) && m in mags && 0 < mags[m].roundCount <= |mags[m].rounds|
    requires o == mags[m].rounds[mags[m].roundCount - 1] && mags' == mags[m := Popped(mags[m])]
    requires Moved(place, place', o, Client)
    ensures place[o] == InMagazine(m) && Stock(z, slabs, mags', place')
  {
    assert MagazineOk(mags, place, m);
    PopLive(mags[m], o);
    forall x: nat | x in place' ensures ObjectOk(z, slabs, mags', place', x) { assert ObjectOk(z, slabs, mags, place, x); }
    forall b: nat | b in slabs ensures SlabOk(z, slabs, place', b) { assert SlabOk(z, slabs, place, b); }
    forall k: nat | k in mags' ensures MagazineOk(mags', place', k) { assert MagazineOk(mags, place, k); }
  }

  /** Popping takes exactly the last live round. */
  lemma {:induction false} PopLive(m: Magazine, o: nat)
    requires 0 < m.roundCount <= |m.rounds| && o == m.rounds[m.roundCount - 1] && NoDup(Live(m))
    ensures o in Live(m) && NoDup(Live(Popped(m)))
    ensures forall x: nat :: x in Live(Popped(m)) <==> x in Live(m) && x != o
  {
    assert Live(m) == Live(Popped(m)) + [o];
    assert Live(m)[m.roundCount - 1] == o;
  }

  lemma {:induction false} TakeKeeps(z: Sizes, slabs: map<nat, Slab>, slabs': map<nat, Slab>, mags: map<nat, Magazine>,
                                     place: map<nat, Place>, place': map<nat, Place>, b: nat, o: nat)
    requires Stock(z, slabs, mags, place) && b in slabs && slabs[b].freelist != [] && slabs[b].freeCount > 0
    requires o == slabs[b].freelist[0] && slabs' == slabs[b := Slab(slabs[b].freelist[1..], slabs[b].freeCount - 1)]
    requires Moved(place, place', o, Client)
    ensures place[o] == InSlab && Stock(z, slabs', mags, place')
  {
    assert SlabOk(z, slabs, place, b);
    var list := slabs[b].freelist;
    assert list == [o] + list[1..];
    assert o in list;
    forall x: nat | x in place' ensures ObjectOk(z, slabs', mags, place', x) { assert ObjectOk(z, slabs, mags, place, x); }
    forall k: nat | k in slabs' ensures SlabOk(z, slabs', place', k) { assert SlabOk(z, slabs, place, k); }
    forall k: nat | k in mags ensures MagazineOk(mags, place', k) { assert MagazineOk(mags, place, k); }
  }

  lemma {:induction false} GiveKeeps(z: Sizes, slabs: map<nat, Slab>, slabs': map<nat, Slab>, mags: map<nat, Magazine>,
                                     place: map<nat, Place>, place': map<nat, Place>, b: nat, o: nat)
    requires Stock(z, slabs, mags, place) && b in slabs && b == z.Base(o)
    requires slabs' == slabs[b := Slab([o] + slabs[b].freelist, slabs[b].freeCount + 1)]
    requires Moved(place, place', o, InSlab) && place[o] == Client
    ensures Stock(z, slabs', mags, place')
  {
    assert SlabOk(z, slabs, place, b);
    forall x: nat | x in place' ensures ObjectOk(z, slabs', mags, place', x) { assert ObjectOk(z, slabs, mags, place, x); }
    forall k: nat | k in slabs' ensures SlabOk(z, slabs', place', k) { assert SlabOk(z, slabs, place, k); }
    forall k: nat | k in mags ensures MagazineOk(mags, place', k) { assert MagazineOk(mags, place, k); }
  }

  /** The objects of a new slab are all in its freelist; nothing else moves. */
  lemma {:induction false} CarveKeeps(z: Sizes, slabs: map<nat, Slab>, slabs': map<nat, Slab>, mags: map<nat, Magazine>,
                                      place: map<nat, Place>, place': map<nat, Place>, b: nat)
    requires Stock(z, slabs, mags, place) && b !in slabs && Division.Rem(b, z.bytes) == 0
    requires slabs' == slabs[b := Slab(Carved(z, b, z.Capacity()), z.Capacity())]
    requires forall o: nat :: o in place' <==> o in place || o in Carved(z, b, z.Capacity())
    requires forall o: nat :: o in place' ==> place'[o] == if o in place then place[o] else InSlab
    ensures Stock(z, slabs', mags, place')
  {
    var list := Carved(z, b, z.Capacity());
    CarvedNoDup(z, b, z.Capacity());
    forall o: nat ensures o in list <==> z.ObjectOf(o, b) { CarvedHas(z, b, z.Capacity(), o); }
    forall o: nat | o in list ensures z.Base(o) == b && o !in place {
      MaskFindsSlab(z, o, b);
      assert !ObjectOk(z, slabs, mags, place, o);
    }
    CarvedHas(z, b, z.Capacity(), 0);
    forall x: nat | x in place' ensures ObjectOk(z, slabs', mags, place', x) { if x in place { assert ObjectOk(z, slabs, mags, place, x); } }
    forall k: nat | k in slabs' ensures SlabOk(z, slabs', place', k) { if k != b { assert SlabOk(z, slabs, place, k); } }
    forall k: nat | k in mags ensures MagazineOk(mags, place', k) { assert MagazineOk(mags, place, k); }
  }
}
