/** The blocks of all files stay apart: each used zone is named by exactly one slot. */
module FileInvariant {
  import opened Outcomes
  import opened Bitmaps
  import opened FileBlocks

  ghost predicate Held(vol: Volume, z: Zone) {
    exists k: Key :: Value(vol, k) == z
  }

  /** Every zone number in a slot is a data zone marked used, no two slots hold the same one,
      and every data zone marked used is held. */
  ghost predicate Apart(vol: Volume) {
    && vol.Sized() && vol.zmap[0]
    && (forall k: Key | Value(vol, k) != 0 :: vol.first <= Value(vol, k) < vol.zones && vol.Used(Value(vol, k)))
    && (forall k: Key, l: Key | Value(vol, k) != 0 && Value(vol, k) == Value(vol, l) :: k == l)
    && (forall z: Zone | vol.first <= z < vol.zones && vol.Used(z) :: Held(vol, z))
  }

  /** Every free zone reads as zeros, as on a volume just made. */
  ghost predicate FreeClean(vol: Volume)
    requires vol.Sized()
  {
    forall z: Zone | vol.first <= z < vol.zones && !vol.Used(z) :: vol.Block(z) == ZeroBlock()
  }

  // ---------- One slot changes ----------

  /** A slot that can be filled: empty, in a block that exists. */
  predicate Fillable(vol: Volume, k: Key) {
    && k.ino in vol.files && Value(vol, k) == 0
    && (!k.slot.Top? ==> Value(vol, Key(k.ino, Parent(k.slot))) != 0)
  }

  lemma PointerAfter(vol: Volume, k: Key, z: Zone, b: Zone, j: Index)
    requires vol.Sized() && k.ino in vol.files && b < |vol.blocks|
    ensures var v, at := WithValue(vol, k, z), if k.slot.Top? then 0 else Value(vol, Key(k.ino, Parent(k.slot)));
      Pointer(v, b, j) == if !k.slot.Top? && b == at != 0 && j == Offset(k.slot) then z else Pointer(vol, b, j)
  {
    if !k.slot.Top? {
      var at := Value(vol, Key(k.ino, Parent(k.slot)));
      EntryAfter(vol.Block(at), Offset(k.slot), z, j);
    }
  }

  lemma ZeroEntry(j: Index)
    ensures Entry(ZeroBlock(), j) == 0
  {
  }

  function Depth(s: Slot): nat {
    match s
    case Top(_) => 0
    case Ind(_) => 1
    case Dbl(_) => 1
    case Leaf(_, _) => 2
  }

  /** Filling slot `k` changes no other slot. */
  lemma {:induction false} OtherSlot(vol: Volume, k: Key, z: Zone, l: Key)
    requires Apart(vol) && Fillable(vol, k) && vol.first <= z < vol.zones && !Held(vol, z)
    requires IsIndex(k.slot) ==> vol.Block(z) == ZeroBlock() || Value(vol, l) != 0
    ensures Value(WithValue(vol, k, z), l) == if l == k then z else Value(vol, l)
    decreases Depth(l.slot)
  {
    var v := WithValue(vol, k, z);
    if l.ino !in vol.files || l.slot.Top? {
    } else {
      hide Value, Apart, WithValue;
      var up := Key(l.ino, Parent(l.slot));
      ValueBelow(vol, l);
      OtherSlot(vol, k, z, up);
      ValueBelow(v, l);
      InRange(vol, up);
      var b := Value(v, up);
      PointerAfter(vol, k, z, b, Offset(l.slot));
      if up == k {
        ZeroEntry(Offset(l.slot));
        if !k.slot.Top? {
          InRange(vol, Key(k.ino, Parent(k.slot)));
        }
      } else if !k.slot.Top? {
        ParentOnly(vol, k, l, Value(vol, Key(k.ino, Parent(k.slot))));
      }
    }
  }

  lemma InRange(vol: Volume, k: Key)
    requires Apart(vol)
    ensures vol.Sized() && (Value(vol, k) != 0 ==> Held(vol, Value(vol, k)) && vol.first <= Value(vol, k) < vol.zones)
    ensures Value(vol, k) < |vol.blocks|
  {
  }

  lemma ParentOnly(vol: Volume, k: Key, l: Key, b: Zone)
    requires Apart(vol) && !k.slot.Top? && b != 0 && Value(vol, Key(k.ino, Parent(k.slot))) == b
    ensures !l.slot.Top? && Value(vol, Key(l.ino, Parent(l.slot))) == b ==>
      l.ino == k.ino && Parent(l.slot) == Parent(k.slot) && (Offset(l.slot) == Offset(k.slot) ==> l == k)
  {
  }

  // ---------- Allocation ----------

  /** What `balloc` hands out: a data zone that no slot holds. */
  lemma BallocFresh(vol: Volume)
    requires Apart(vol)
    ensures Balloc(vol).Halt? <==> forall z: Zone | vol.first <= z < vol.zones :: vol.Used(z)
    ensures Balloc(vol).Done? ==> var g := Balloc(vol).value;
      && vol.first <= g.zone < vol.zones && !vol.Used(g.zone) && !Held(vol, g.zone)
      && g.vol == vol.(zmap := vol.zmap[g.zone - vol.first + 1 := true])
  {
    hide Value;
    var r := FirstRun(vol.zmap, 1);
    assert forall s: nat | s < |vol.zmap| :: ClearRun(vol.zmap, s, 1) <==> !vol.zmap[s];
    if Balloc(vol).Done? {
      assert !vol.Used(Balloc(vol).value.zone);
    }
  }

  lemma SameValues(vol: Volume, v: Volume, k: Key)
    requires v.files == vol.files && v.blocks == vol.blocks
    ensures Value(v, k) == Value(vol, k)
  {
  }

  /** A step that fills empty slots of file `ino` on the way to its block `b`, and leaves all
      else alone. */
  ghost predicate Grown(vol: Volume, v: Volume, ino: nat, b: FileBlock) {
    && Apart(v)
    && v.first == vol.first && v.zones == vol.zones
    && v.files.Keys == vol.files.Keys
    && (forall i | i in vol.files :: v.files[i].size == vol.files[i].size)
    && (forall l: Key | Value(v, l) != Value(vol, l) :: l.ino == ino && l.slot in Path(b) && Value(vol, l) == 0)
    && (forall l: Key | !IsIndex(l.slot) && Value(vol, l) != 0 :: v.Block(Value(vol, l)) == vol.Block(Value(vol, l)))
  }

  lemma GrownTwice(vol: Volume, v: Volume, w: Volume, ino: nat, b: FileBlock)
    requires Grown(vol, v, ino, b) && Grown(v, w, ino, b)
    ensures Grown(vol, w, ino, b)
  {
    hide Value, Apart, Path;
    forall l: Key | !IsIndex(l.slot) && Value(vol, l) != 0 ensures w.Block(Value(vol, l)) == vol.Block(Value(vol, l)) {
      assert Value(v, l) == Value(vol, l);
    }
    forall l: Key | Value(w, l) != Value(vol, l)
      ensures l.ino == ino && l.slot in Path(b) && Value(vol, l) == 0
    {
      assert Value(v, l) != Value(vol, l) || Value(w, l) != Value(v, l);
    }
  }

  lemma GrownNot(vol: Volume, ino: nat, b: FileBlock)
    requires Apart(vol)
    ensures Grown(vol, vol, ino, b)
  {
  }

  /** The block a slot is written into is held by an index slot. */
  lemma WritesIndexBlock(vol: Volume, k: Key, z: Zone, w: Zone)
    requires Apart(vol) && k.ino in vol.files
    requires !k.slot.Top? ==> Value(vol, Key(k.ino, Parent(k.slot))) != 0
    ensures WithValue(vol, k, z).Block(w) != vol.Block(w) ==>
      !k.slot.Top? && w == Value(vol, Key(k.ino, Parent(k.slot)))
  {
    hide Value;
  }

  /** Filling a slot with a zone just allocated keeps the blocks of all files apart. */
  lemma FillApart(vol: Volume, k: Key, z: Zone, v: Volume)
    requires Apart(vol) && Fillable(vol, k) && vol.first <= z < vol.zones && !vol.Used(z) && !Held(vol, z)
    requires v == WithValue(vol.(zmap := vol.zmap[z - vol.first + 1 := true]), k, z)
    requires forall l: Key :: Value(v, l) == if l == k then z else Value(vol, l)
    ensures Apart(v)
  {
    hide Value;
    assert v.zmap == vol.zmap[z - vol.first + 1 := true];
    forall w: Zone | v.first <= w < v.zones && v.Used(w) ensures Held(v, w) {
      if w == z {
        assert Value(v, k) == z;
      } else {
        assert vol.Used(w);
        var l :| Value(vol, l) == w;
        assert l != k;
        assert Value(v, l) == w;
      }
    }
  }

  lemma FillValues(vol: Volume, k: Key, z: Zone, v: Volume)
    requires Apart(vol) && Fillable(vol, k) && vol.first <= z < vol.zones && !Held(vol, z)
    requires IsIndex(k.slot) ==> vol.Block(z) == ZeroBlock()
    requires v == WithValue(vol.(zmap := vol.zmap[z - vol.first + 1 := true]), k, z)
    ensures forall l: Key :: Value(v, l) == if l == k then z else Value(vol, l)
  {
    forall l: Key ensures Value(v, l) == if l == k then z else Value(vol, l) {
      OtherSlot(vol, k, z, l);
      SameWithValue(vol, k, z, v);
      SameValues(WithValue(vol, k, z), v, l);
    }
  }

  lemma SameWithValue(vol: Volume, k: Key, z: Zone, v: Volume)
    requires vol.Sized() && k.ino in vol.files && vol.first <= z < vol.zones
    requires v == WithValue(vol.(zmap := vol.zmap[z - vol.first + 1 := true]), k, z)
    ensures v.files == WithValue(vol, k, z).files && v.blocks == WithValue(vol, k, z).blocks
  {
    if !k.slot.Top? {
      SameValues(vol, vol.(zmap := vol.zmap[z - vol.first + 1 := true]), Key(k.ino, Parent(k.slot)));
    }
  }

  lemma FillGrows(vol: Volume, k: Key, z: Zone, v: Volume, b: FileBlock)
    requires Apart(vol) && Fillable(vol, k) && k.slot in Path(b)
    requires IsIndex(k.slot) ==> vol.Block(z) == ZeroBlock()
    requires vol.first <= z < vol.zones && !vol.Used(z) && !Held(vol, z)
    requires v == WithValue(vol.(zmap := vol.zmap[z - vol.first + 1 := true]), k, z)
    ensures Grown(vol, v, k.ino, b) && Value(v, k) == z
  {
    FillValues(vol, k, z, v);
    FillApart(vol, k, z, v);
    SameWithValue(vol, k, z, v);
    hide Value, Apart;
    forall l: Key | !IsIndex(l.slot) && Value(vol, l) != 0 ensures v.Block(Value(vol, l)) == vol.Block(Value(vol, l)) {
      WritesIndexBlock(vol, k, z, Value(vol, l));
      if !k.slot.Top? && l != Key(k.ino, Parent(k.slot)) {
        DifferentBlocks(vol, l, Key(k.ino, Parent(k.slot)));
      }
    }
  }

  /** Two slots that are filled name different blocks. */
  lemma DifferentBlocks(v: Volume, k: Key, l: Key)
    requires Apart(v) && k != l && Value(v, k) != 0
    ensures Value(v, k) != Value(v, l)
  {
  }

  // ---------- bmap ----------

  /** `balloc` hands blocks out as they are.  This asks that the one it hands to an empty index
      slot reads as zeros; of a data slot it asks nothing. */
  predicate CleanFill(vol: Volume, k: Key)
    requires vol.Sized()
  {
    IsIndex(k.slot) && Value(vol, k) == 0 && Balloc(vol).Done? ==> vol.Block(Balloc(vol).value.zone) == ZeroBlock()
  }

  /** The same for each round of `bmap` with `create` from round `i` on. */
  predicate CleanFrom(vol: Volume, ino: nat, b: FileBlock, i: nat)
    requires vol.Sized() && ino in vol.files && i <= |Path(b)|
    decreases |Path(b)| - i
  {
    i < |Path(b)| ==>
      var f := Fill(vol, Key(ino, Path(b)[i]), true);
      CleanFill(vol, Key(ino, Path(b)[i])) && (f.Done? ==> CleanFrom(f.value, ino, b, i + 1))
  }

  /** Each zone that `bmap` hands to an empty index slot on the way to block `b` reads as
      zeros. */
  predicate CleanPath(vol: Volume, ino: nat, b: FileBlock)
    requires vol.Sized() && ino in vol.files
  {
    CleanFrom(vol, ino, b, 0)
  }

  lemma CleanOnce(vol: Volume, ino: nat, b: FileBlock, i: nat)
    requires vol.Sized() && ino in vol.files && i < |Path(b)|
    ensures var f := Fill(vol, Key(ino, Path(b)[i]), true);
      CleanFrom(vol, ino, b, i) <==>
        CleanFill(vol, Key(ino, Path(b)[i])) && (f.Done? ==> CleanFrom(f.value, ino, b, i + 1))
  {
    hide Path, Fill, CleanFill;
  }

  /** One round of `bmap`. */
  lemma FillCore(vol: Volume, k: Key, b: FileBlock)
    requires Apart(vol) && k.ino in vol.files && k.slot in Path(b)
    requires vol.Sized() && CleanFill(vol, k)
    requires !k.slot.Top? ==> Value(vol, Key(k.ino, Parent(k.slot))) != 0
    ensures var r := Fill(vol, k, true);
      && (r.Halt? ==> r.why == OutOfMemory && forall z: Zone | vol.first <= z < vol.zones :: vol.Used(z))
      && (r.Done? ==> Grown(vol, r.value, k.ino, b) && Value(r.value, k) != 0)
  {
    hide Value, Apart;
    if Value(vol, k) != 0 {
      GrownNot(vol, k.ino, b);
    } else {
      BallocFresh(vol);
      if Balloc(vol).Done? {
        FillGrows(vol, k, Balloc(vol).value.zone, Fill(vol, k, true).value, b);
      }
    }
  }

  lemma ApartSized(vol: Volume)
    requires Apart(vol)
    ensures vol.Sized()
  {
  }

  /** `bmap` with `create`: the block is mapped afterwards, everything mapped before is mapped
      as before, and the blocks of all files are still apart. */
  lemma BmapCreates(vol: Volume, ino: nat, b: FileBlock)
    requires Apart(vol) && ino in vol.files && vol.Sized() && CleanPath(vol, ino, b)
    ensures var r := Bmap(vol, ino, b, true);
      && (r.Halt? ==> r.why == OutOfMemory)
      && (r.Done? ==>
            && Grown(vol, r.value.vol, ino, b)
            && r.value.zone != 0 && r.value.zone == Value(r.value.vol, Key(ino, DataSlot(b))))
  {
    PathCreates(vol, ino, b, 0);
    assert Path(b)[0..] == Path(b);
  }

  lemma {:induction false} PathCreates(vol: Volume, ino: nat, b: FileBlock, i: nat)
    requires i < |Path(b)| && Apart(vol) && ino in vol.files && vol.Sized() && CleanFrom(vol, ino, b, i)
    requires i > 0 ==> Value(vol, Key(ino, Path(b)[i - 1])) != 0
    ensures var r := BmapPath(vol, ino, Path(b)[i..], true);
      && (r.Halt? ==> r.why == OutOfMemory)
      && (r.Done? ==>
            && Grown(vol, r.value.vol, ino, b)
            && r.value.zone != 0 && r.value.zone == Value(r.value.vol, Key(ino, DataSlot(b))))
    decreases |Path(b)| - i
  {
    hide Value, Apart, Fill, CleanFill, CleanFrom;
    PathParents(b);
    CleanOnce(vol, ino, b, i);
    FillCore(vol, Key(ino, Path(b)[i]), b);
    var f := Fill(vol, Key(ino, Path(b)[i]), true);
    if f.Halt? || i + 1 == |Path(b)| {
    } else {
      assert Path(b)[i..][1..] == Path(b)[i + 1..];
      PathCreates(f.value, ino, b, i + 1);
      var r := BmapPath(f.value, ino, Path(b)[i + 1..], true);
      if r.Done? {
        GrownTwice(vol, f.value, r.value.vol, ino, b);
      }
    }
  }

  /** One round of the walk, the rest of the path still to go. */
  lemma PathOnce(vol: Volume, ino: nat, path: seq<Slot>, i: nat, create: bool)
    requires vol.Sized() && ino in vol.files && i < |path|
    ensures var f := Fill(vol, Key(ino, path[i]), create);
      BmapPath(vol, ino, path[i..], create) ==
        if f.Halt? then Halt(f.why)
        else if i + 1 == |path| || Value(f.value, Key(ino, path[i])) == 0 then
          Done(Grant(f.value, Value(f.value, Key(ino, path[i]))))
        else BmapPath(f.value, ino, path[i + 1..], create)
  {
    hide Value;
    if i + 1 < |path| {
      assert path[i..][1..] == path[i + 1..];
    }
  }

  lemma PathParents(b: FileBlock)
    ensures Path(b)[0].Top?
    ensures forall i | 0 < i < |Path(b)| :: !Path(b)[i].Top? && Parent(Path(b)[i]) == Path(b)[i - 1]
  {
  }

  /** `bmap` without `create` only looks. */
  lemma BmapLooks(vol: Volume, ino: nat, b: FileBlock)
    requires vol.Sized() && ino in vol.files
    ensures Bmap(vol, ino, b, false) == Done(Grant(vol, Value(vol, Key(ino, DataSlot(b)))))
  {
    PathLooks(vol, ino, b, 0);
    assert Path(b)[0..] == Path(b);
  }

  lemma {:induction false} PathLooks(vol: Volume, ino: nat, b: FileBlock, i: nat)
    requires i < |Path(b)| && vol.Sized() && ino in vol.files
    ensures BmapPath(vol, ino, Path(b)[i..], false) == Done(Grant(vol, Value(vol, Key(ino, DataSlot(b)))))
    decreases |Path(b)| - i
  {
    hide Value;
    PathParents(b);
    if i + 1 == |Path(b)| {
    } else {
      assert Path(b)[i..][1..] == Path(b)[i + 1..];
      PathLooks(vol, ino, b, i + 1);
      if Value(vol, Key(ino, Path(b)[i])) == 0 {
        EmptyBelow(vol, ino, b, i);
      }
    }
  }

  /** Below an empty slot everything is empty. */
  lemma {:induction false} EmptyBelow(vol: Volume, ino: nat, b: FileBlock, i: nat)
    requires i < |Path(b)| && Value(vol, Key(ino, Path(b)[i])) == 0
    ensures Value(vol, Key(ino, DataSlot(b))) == 0
    decreases |Path(b)| - i
  {
    hide Value;
    PathParents(b);
    if i + 1 == |Path(b)| {
    } else {
      ValueBelow(vol, Key(ino, Path(b)[i + 1]));
      EmptyBelow(vol, ino, b, i + 1);
    }
  }

  // ---------- Index blocks must read as zeros ----------

  /** The slot for entry `j` of the block that index slot `s` names. */
  function Child(s: Slot, j: Index): Slot
    requires IsIndex(s)
  {
    if s == Top(7) then Ind(j) else if s == Top(8) then Dbl(j) else Leaf(s.i, j)
  }

  /** Filling an index slot keeps the blocks of all files apart exactly when the zone that
      `balloc` hands out holds only zero entries. */
  lemma IndexBlockExact(vol: Volume, k: Key)
    requires Apart(vol) && Fillable(vol, k) && IsIndex(k.slot) && Balloc(vol).Done?
    ensures Fill(vol, k, true).Done?
    ensures Apart(Fill(vol, k, true).value) <==> vol.Block(Balloc(vol).value.zone) == ZeroBlock()
  {
    BallocFresh(vol);
    var z, v := Balloc(vol).value.zone, Fill(vol, k, true).value;
    if vol.Block(z) == ZeroBlock() {
      FillValues(vol, k, z, v);
      FillApart(vol, k, z, v);
    } else if Apart(v) {
      hide Value;
      var j := NonZeroEntry(vol.Block(z));
      var child := Key(k.ino, Child(k.slot, j));
      StaleChild(vol, k, z, v, j);
      InRange(v, child);
      FilledSlot(vol, k, z, v);
      var w := Value(v, child);
      if w != z {
        assert vol.Used(w);
        var l :| Value(vol, l) == w;
        LiveSlot(vol, k, z, v, j, l);
      }
    }
  }

  /** A slot that was filled before keeps its zone, and is not below the slot now filled. */
  lemma LiveSlot(vol: Volume, k: Key, z: Zone, v: Volume, j: Index, l: Key)
    requires Apart(vol) && Fillable(vol, k) && IsIndex(k.slot) && vol.first <= z < vol.zones && !Held(vol, z)
    requires v == WithValue(vol.(zmap := vol.zmap[z - vol.first + 1 := true]), k, z)
    requires Value(vol, l) != 0
    ensures Value(v, l) == Value(vol, l) && l != Key(k.ino, Child(k.slot, j))
  {
    hide Value, Apart;
    ApartSized(vol);
    OtherSlot(vol, k, z, l);
    SameWithValue(vol, k, z, v);
    SameValues(WithValue(vol, k, z), v, l);
    ValueBelow(vol, Key(k.ino, Child(k.slot, j)));
  }

  /** A block that is not all zeros has an entry that is not zero. */
  lemma NonZeroEntry(b: Block) returns (j: Index)
    requires b != ZeroBlock()
    ensures Entry(b, j) != 0
  {
    var i :| 0 <= i < 1024 && b[i] != 0;
    j := i / 2;
  }

  lemma FilledSlot(vol: Volume, k: Key, z: Zone, v: Volume)
    requires Apart(vol) && Fillable(vol, k) && vol.first <= z < vol.zones && !Held(vol, z)
    requires v == WithValue(vol.(zmap := vol.zmap[z - vol.first + 1 := true]), k, z)
    ensures Value(v, k) == z && v.Block(z) == vol.Block(z)
    ensures v.zmap == vol.zmap[z - vol.first + 1 := true]
  {
    hide Apart;
    SameWithValue(vol, k, z, v) by {
      ApartSized(vol);
    }
    SameValues(WithValue(vol, k, z), v, k);
    FilledValue(vol, k, z);
    if !k.slot.Top? {
      assert Value(vol, Key(k.ino, Parent(k.slot))) != z;
    }
  }

  lemma FilledValue(vol: Volume, k: Key, z: Zone)
    requires Apart(vol) && Fillable(vol, k) && vol.first <= z < vol.zones && !Held(vol, z)
    ensures Value(WithValue(vol, k, z), k) == z
  {
    if !k.slot.Top? {
      var up := Key(k.ino, Parent(k.slot));
      OtherSlot(vol, k, z, up);
      ValueBelow(WithValue(vol, k, z), k);
      InRange(vol, up);
      PointerAfter(vol, k, z, Value(vol, up), Offset(k.slot));
    }
  }

  lemma StaleChild(vol: Volume, k: Key, z: Zone, v: Volume, j: Index)
    requires Apart(vol) && Fillable(vol, k) && IsIndex(k.slot) && vol.first <= z < vol.zones && !Held(vol, z)
    requires v == WithValue(vol.(zmap := vol.zmap[z - vol.first + 1 := true]), k, z)
    ensures Value(v, Key(k.ino, Child(k.slot, j))) == Entry(vol.Block(z), j)
  {
    hide Value, Apart;
    FilledSlot(vol, k, z, v);
    ValueBelow(v, Key(k.ino, Child(k.slot, j)));
    ApartSized(vol);
  }
}
