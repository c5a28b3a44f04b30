/** When the blocks that `balloc` hands out will do as index blocks (src/fs/bmap.c).  They are not
    cleared, so the blocks of all files stay apart exactly when each reads as zeros. */
module IndexBlocks {
  import opened Outcomes
  import opened FileBlocks
  import opened FileInvariant

  // ---------- Enough for it ----------

  /** Every index slot on the way to block `b` is filled already. */
  ghost predicate Settled(vol: Volume, ino: nat, b: FileBlock) {
    forall s: Slot | s in Path(b) && IsIndex(s) :: Value(vol, Key(ino, s)) != 0
  }

  lemma DirectSettled(vol: Volume, ino: nat, b: FileBlock)
    requires b < DIRECT
    ensures Settled(vol, ino, b)
  {
  }

  /** A mapped block has all its index slots filled. */
  lemma MappedSettled(vol: Volume, ino: nat, b: FileBlock)
    requires Value(vol, Key(ino, DataSlot(b))) != 0
    ensures Settled(vol, ino, b)
  {
    forall i | 0 <= i < |Path(b)| ensures Value(vol, Key(ino, Path(b)[i])) != 0 {
      if Value(vol, Key(ino, Path(b)[i])) == 0 {
        EmptyBelow(vol, ino, b, i);
      }
    }
  }

  /** If all index slots on the way are filled, nothing is asked of the free zones. */
  lemma SettledClean(vol: Volume, ino: nat, b: FileBlock)
    requires vol.Sized() && ino in vol.files && Settled(vol, ino, b)
    ensures CleanPath(vol, ino, b)
  {
    SettledFrom(vol, ino, b, 0);
  }

  lemma {:induction false} SettledFrom(vol: Volume, ino: nat, b: FileBlock, i: nat)
    requires vol.Sized() && ino in vol.files && Settled(vol, ino, b) && i <= |Path(b)|
    ensures CleanFrom(vol, ino, b, i)
    decreases |Path(b)| - i
  {
    hide Value, Balloc;
    if i == |Path(b)| {
    } else if i + 1 == |Path(b)| {
      DataSlotInjective(b, b);
    } else {
      PathIndexes(b);
      SettledFrom(vol, ino, b, i + 1);
    }
  }

  lemma PathIndexes(b: FileBlock)
    ensures forall i | 0 <= i < |Path(b)| - 1 :: IsIndex(Path(b)[i])
  {
  }

  /** On a volume whose free zones all read as zeros nothing more is asked, and the others still
      do afterwards. */
  lemma FreeCleanPath(vol: Volume, ino: nat, b: FileBlock)
    requires Apart(vol) && vol.Sized() && FreeClean(vol) && ino in vol.files
    ensures CleanPath(vol, ino, b)
    ensures Bmap(vol, ino, b, true).Done? ==> FreeClean(Bmap(vol, ino, b, true).value.vol)
  {
    FreeCleanFrom(vol, ino, b, 0);
    assert Path(b)[0..] == Path(b);
  }

  lemma {:induction false} FreeCleanFrom(vol: Volume, ino: nat, b: FileBlock, i: nat)
    requires Apart(vol) && vol.Sized() && FreeClean(vol) && ino in vol.files && i < |Path(b)|
    requires i > 0 ==> Value(vol, Key(ino, Path(b)[i - 1])) != 0
    ensures CleanFrom(vol, ino, b, i)
    ensures var r := BmapPath(vol, ino, Path(b)[i..], true); r.Done? ==> FreeClean(r.value.vol)
    decreases |Path(b)| - i
  {
    hide Value, Apart, FreeClean, CleanFill, CleanFrom, Fill, BmapPath;
    var k := Key(ino, Path(b)[i]);
    PathParents(b);
    CleanOnce(vol, ino, b, i);
    PathOnce(vol, ino, Path(b), i, true);
    FreeCleanFill(vol, k);
    FillCore(vol, k, b);
    var f := Fill(vol, k, true);
    if f.Halt? {
    } else {
      if i + 1 == |Path(b)| {
        assert CleanFrom(f.value, ino, b, i + 1) by {
          CleanEnd(f.value, ino, b);
        }
      } else {
        GrownKeeps(vol, f.value, ino, b);
        FreeCleanFrom(f.value, ino, b, i + 1);
      }
    }
  }

  lemma CleanEnd(vol: Volume, ino: nat, b: FileBlock)
    requires vol.Sized() && ino in vol.files
    ensures CleanFrom(vol, ino, b, |Path(b)|)
  {
  }

  lemma GrownKeeps(vol: Volume, v: Volume, ino: nat, b: FileBlock)
    requires Grown(vol, v, ino, b)
    ensures Apart(v) && v.Sized() && v.files.Keys == vol.files.Keys
  {
  }

  lemma FreeCleanFill(vol: Volume, k: Key)
    requires Apart(vol) && vol.Sized() && FreeClean(vol) && k.ino in vol.files
    requires !k.slot.Top? ==> Value(vol, Key(k.ino, Parent(k.slot))) != 0
    ensures CleanFill(vol, k)
    ensures Fill(vol, k, true).Done? ==> FreeClean(Fill(vol, k, true).value)
  {
    BallocFresh(vol);
    hide Value;
    if Value(vol, k) == 0 && Balloc(vol).Done? {
      var z, v := Balloc(vol).value.zone, Fill(vol, k, true).value;
      SameWithValue(vol, k, z, v);
      assert v.zmap == vol.zmap[z - vol.first + 1 := true];
      forall w: Zone | v.first <= w < v.zones && !v.Used(w) ensures v.Block(w) == ZeroBlock() {
        assert !vol.Used(w);
        WritesIndexBlock(vol, k, z, w);
      }
    }
  }

  // ---------- No less than it ----------

  /** Filling an empty slot overwrites nothing, on any volume: a slot that holds a zone keeps it,
      and a zone marked used stays so. */
  lemma {:induction false} FilledStays(vol: Volume, k: Key, l: Key)
    requires vol.Sized() && k.ino in vol.files && Fill(vol, k, true).Done? && Value(vol, l) != 0
    ensures Value(Fill(vol, k, true).value, l) == Value(vol, l)
    decreases Depth(l.slot)
  {
    if Value(vol, k) != 0 || l.slot.Top? {
    } else {
      var g, v := Balloc(vol).value, Fill(vol, k, true).value;
      hide Value, Balloc, WithValue;
      var up := Key(l.ino, Parent(l.slot));
      ValueBelow(vol, l);
      FilledStays(vol, k, up);
      ValueBelow(v, l);
      NoEntries(vol, Value(vol, up), Offset(l.slot));
      PointerStays(vol, g, k, Value(vol, up), Offset(l.slot));
    }
  }

  lemma NoEntries(vol: Volume, b: Zone, j: Index)
    requires Pointer(vol, b, j) != 0
    ensures b != 0 && b < |vol.blocks|
  {
  }

  /** An entry that is not zero stays as it is, in every block. */
  lemma PointerStays(vol: Volume, g: Grant, k: Key, b: Zone, j: Index)
    requires vol.Sized() && k.ino in vol.files && Balloc(vol) == Done(g) && Value(vol, k) == 0
    requires b < |vol.blocks| && Pointer(vol, b, j) != 0
    ensures Pointer(WithValue(g.vol, k, g.zone), b, j) == Pointer(vol, b, j)
  {
    var up := Key(k.ino, if k.slot.Top? then k.slot else Parent(k.slot));
    hide Value;
    SameValues(vol, g.vol, up);
    PointerAfter(g.vol, k, g.zone, b, j);
    if !k.slot.Top? {
      ValueBelow(vol, k);
    }
  }

  lemma UsedStays(vol: Volume, k: Key, w: Zone)
    requires vol.Sized() && k.ino in vol.files && Fill(vol, k, true).Done? && vol.first <= w < vol.zones
    ensures var v := Fill(vol, k, true).value;
      && v.first == vol.first && v.zones == vol.zones && v.Sized()
      && (vol.Used(w) ==> v.Used(w))
      && (v.Used(w) && !vol.Used(w) ==> Value(vol, k) == 0 && Balloc(vol).Done? && w == Balloc(vol).value.zone)
  {
    hide Value;
  }

  /** The slot just filled holds the zone handed out, if it lies in a block there is. */
  lemma FilledHolds(vol: Volume, k: Key)
    requires vol.Sized() && k.ino in vol.files && Fill(vol, k, true).Done? && Value(vol, k) == 0
    requires !k.slot.Top? ==> 0 < Value(vol, Key(k.ino, Parent(k.slot))) < vol.zones
    ensures Balloc(vol).Done? && Value(Fill(vol, k, true).value, k) == Balloc(vol).value.zone
  {
    if !k.slot.Top? {
      var g, v := Balloc(vol).value, Fill(vol, k, true).value;
      hide Value, Balloc, WithValue;
      var up := Key(k.ino, Parent(k.slot));
      FilledStays(vol, k, up);
      ValueBelow(v, k);
      SameValues(vol, g.vol, up);
      PointerAfter(g.vol, k, g.zone, Value(vol, up), Offset(k.slot));
    }
  }

  /** The rounds from `i` on, on any volume: what slots hold stays. */
  lemma {:induction false} WalkStays(vol: Volume, ino: nat, b: FileBlock, i: nat, l: Key)
    requires vol.Sized() && ino in vol.files && i < |Path(b)| && BmapPath(vol, ino, Path(b)[i..], true).Done?
    requires Value(vol, l) != 0
    ensures Value(BmapPath(vol, ino, Path(b)[i..], true).value.vol, l) == Value(vol, l)
    decreases |Path(b)| - i
  {
    hide Value, Fill, BmapPath, Path;
    PathOnce(vol, ino, Path(b), i, true);
    FilledStays(vol, Key(ino, Path(b)[i]), l);
    var v := Fill(vol, Key(ino, Path(b)[i]), true).value;
    if i + 1 == |Path(b)| || Value(v, Key(ino, Path(b)[i])) == 0 {
    } else {
      WalkStays(v, ino, b, i + 1, l);
    }
  }

  /** A zone that the rounds from `i` on took went into a slot that was empty. */
  lemma {:induction false} TakenHeld(vol: Volume, ino: nat, b: FileBlock, i: nat, w: Zone) returns (m: Key)
    requires vol.Sized() && ino in vol.files && i < |Path(b)| && BmapPath(vol, ino, Path(b)[i..], true).Done?
    requires i > 0 ==> 0 < Value(vol, Key(ino, Path(b)[i - 1])) < vol.zones
    requires vol.first <= w < vol.zones && !vol.Used(w)
    requires Apart(BmapPath(vol, ino, Path(b)[i..], true).value.vol)
    requires BmapPath(vol, ino, Path(b)[i..], true).value.vol.first == vol.first
    requires BmapPath(vol, ino, Path(b)[i..], true).value.vol.zones == vol.zones
    requires BmapPath(vol, ino, Path(b)[i..], true).value.vol.Used(w)
    ensures Value(vol, m) == 0 && Value(BmapPath(vol, ino, Path(b)[i..], true).value.vol, m) == w
    decreases |Path(b)| - i
  {
    hide Value, Fill, BmapPath, Path, Apart, Balloc;
    var f := BmapPath(vol, ino, Path(b)[i..], true).value.vol;
    m := Key(ino, Path(b)[i]);
    PathOnce(vol, ino, Path(b), i, true);
    var v := Fill(vol, m, true).value;
    PathParents(b);
    UsedStays(vol, m, w);
    var last := i + 1 == |Path(b)| || Value(v, m) == 0;
    if v.Used(w) {
      FilledHolds(vol, m);
      if !last {
        WalkStays(v, ino, b, i + 1, m);
      }
    } else if last {
      assert false;
    } else {
      WalkStays(v, ino, b, i + 1, m);
      InRange(f, m);
      m := TakenHeld(v, ino, b, i + 1, w);
      if Value(vol, m) != 0 {
        FilledStays(vol, Key(ino, Path(b)[i]), m);
      }
    }
  }

  lemma {:induction false} WalkSameSize(vol: Volume, ino: nat, b: FileBlock, i: nat)
    requires vol.Sized() && ino in vol.files && i < |Path(b)| && BmapPath(vol, ino, Path(b)[i..], true).Done?
    ensures var f := BmapPath(vol, ino, Path(b)[i..], true).value.vol;
      f.first == vol.first && f.zones == vol.zones && f.Sized()
    ensures var f := BmapPath(vol, ino, Path(b)[i..], true).value.vol;
      forall w: Zone | vol.first <= w < vol.zones && vol.Used(w) :: f.Used(w)
    decreases |Path(b)| - i
  {
    hide Value, Fill, BmapPath, Path;
    PathOnce(vol, ino, Path(b), i, true);
    var v := Fill(vol, Key(ino, Path(b)[i]), true).value;
    forall w: Zone | vol.first <= w < vol.zones ensures vol.Used(w) ==> v.Sized() && v.first <= w < v.zones && v.Used(w) {
      UsedStays(vol, Key(ino, Path(b)[i]), w);
    }
    UsedStays(vol, Key(ino, Path(b)[i]), vol.first);
    if i + 1 == |Path(b)| || Value(v, Key(ino, Path(b)[i])) == 0 {
    } else {
      WalkSameSize(v, ino, b, i + 1);
    }
  }

  /** A stale entry in a block taken as index block spoils the volume, whatever the later rounds
      do. */
  lemma Spoiled(vol: Volume, ino: nat, b: FileBlock, i: nat)
    requires Apart(vol) && ino in vol.files && vol.Sized() && i + 1 < |Path(b)|
    requires i > 0 ==> Value(vol, Key(ino, Path(b)[i - 1])) != 0
    requires !CleanFill(vol, Key(ino, Path(b)[i])) && BmapPath(vol, ino, Path(b)[i..], true).Done?
    ensures !Apart(BmapPath(vol, ino, Path(b)[i..], true).value.vol)
  {
    hide Value, Apart, BmapPath, Path, Balloc, WithValue;
    var k, f := Key(ino, Path(b)[i]), BmapPath(vol, ino, Path(b)[i..], true).value.vol;
    var g, v := Balloc(vol).value, Fill(vol, k, true).value;
    var z := g.zone;
    BallocFresh(vol);
    PathOnce(vol, ino, Path(b), i, true);
    PathParents(b);
    UsedStays(vol, k, vol.first);
    var j := NonZeroEntry(vol.Block(z));
    var child := Key(ino, Child(k.slot, j));
    StaleChild(vol, k, z, v, j);
    FilledSlot(vol, k, z, v);
    var w := Value(v, child);
    WalkStays(v, ino, b, i + 1, child);
    WalkStays(v, ino, b, i + 1, k);
    WalkSameSize(v, ino, b, i + 1);
    if Apart(f) {
      InRange(f, child);
      InRange(f, k);
      TwoHolders(vol, v, f, ino, b, i, j);
    }
  }

  lemma TwoHolders(vol: Volume, v: Volume, f: Volume, ino: nat, b: FileBlock, i: nat, j: Index)
    requires Apart(vol) && ino in vol.files && vol.Sized() && i + 1 < |Path(b)| && IsIndex(Path(b)[i])
    requires Fillable(vol, Key(ino, Path(b)[i])) && Balloc(vol).Done?
    requires Fill(vol, Key(ino, Path(b)[i]), true) == Done(v)
    requires BmapPath(v, ino, Path(b)[i + 1..], true).Done? && f == BmapPath(v, ino, Path(b)[i + 1..], true).value.vol
    requires Value(v, Key(ino, Path(b)[i])) == Balloc(vol).value.zone == Value(f, Key(ino, Path(b)[i]))
    requires var w := Value(v, Key(ino, Child(Path(b)[i], j)));
      && 0 != w == Value(f, Key(ino, Child(Path(b)[i], j))) && vol.first <= w < vol.zones
    requires Value(v, Key(ino, Path(b)[i])) < vol.zones
    requires f.first == v.first == vol.first && f.zones == v.zones == vol.zones
    ensures !Apart(f)
  {
    hide Value, Apart, BmapPath, Path, Balloc, WithValue, Fill, Fillable;
    var k := Key(ino, Path(b)[i]);
    var child, z := Key(ino, Child(k.slot, j)), Balloc(vol).value.zone;
    var w := Value(v, child);
    BallocFresh(vol);
    UsedStays(vol, k, w);
    if Apart(f) {
      ApartUsed(f, child);
      if w == z {
        DifferentBlocks(f, k, child);
      } else if vol.Used(w) {
        var l := Holder(vol, w);
        FilledStays(vol, k, l);
        HolderNotBelow(vol, k, j, l);
        WalkStays(v, ino, b, i + 1, l);
        DifferentBlocks(f, l, child);
      } else {
        var m := TakenHeld(v, ino, b, i + 1, w);
        DifferentBlocks(f, m, child);
      }
    }
  }

  lemma Holder(vol: Volume, w: Zone) returns (l: Key)
    requires Apart(vol) && vol.first <= w < vol.zones && vol.Used(w)
    ensures Value(vol, l) == w
  {
    hide Value;
    assert Held(vol, w);
    l :| Value(vol, l) == w;
  }

  lemma ApartUsed(vol: Volume, k: Key)
    requires Apart(vol) && Value(vol, k) != 0
    ensures vol.Sized() && vol.first <= Value(vol, k) < vol.zones && vol.Used(Value(vol, k))
  {
  }

  /** Nothing is below an empty slot. */
  lemma HolderNotBelow(vol: Volume, k: Key, j: Index, l: Key)
    requires Fillable(vol, k) && IsIndex(k.slot) && Value(vol, l) != 0
    ensures l != Key(k.ino, Child(k.slot, j))
  {
    hide Value;
    ValueBelow(vol, Key(k.ino, Child(k.slot, j)));
  }

  /** `bmap` with `create` keeps the blocks of all files apart exactly when each zone it hands to
      an empty index slot reads as zeros. */
  lemma BmapExact(vol: Volume, ino: nat, b: FileBlock)
    requires Apart(vol) && ino in vol.files && vol.Sized() && Bmap(vol, ino, b, true).Done?
    ensures Apart(Bmap(vol, ino, b, true).value.vol) <==> CleanPath(vol, ino, b)
  {
    PathExact(vol, ino, b, 0);
    assert Path(b)[0..] == Path(b);
  }

  lemma {:induction false} PathExact(vol: Volume, ino: nat, b: FileBlock, i: nat)
    requires Apart(vol) && ino in vol.files && vol.Sized() && i < |Path(b)|
    requires i > 0 ==> Value(vol, Key(ino, Path(b)[i - 1])) != 0
    requires BmapPath(vol, ino, Path(b)[i..], true).Done?
    ensures Apart(BmapPath(vol, ino, Path(b)[i..], true).value.vol) <==> CleanFrom(vol, ino, b, i)
    decreases |Path(b)| - i
  {
    hide Value, Apart, BmapPath, CleanFill, CleanFrom, Fill;
    var k := Key(ino, Path(b)[i]);
    PathParents(b);
    CleanOnce(vol, ino, b, i);
    PathOnce(vol, ino, Path(b), i, true);
    if i + 1 == |Path(b)| {
      DataClean(vol, ino, b);
      FillCore(vol, k, b);
      CleanEnd(Fill(vol, k, true).value, ino, b);
    } else if !CleanFill(vol, k) {
      Spoiled(vol, ino, b, i);
    } else {
      FillCore(vol, k, b);
      GrownKeeps(vol, Fill(vol, k, true).value, ino, b);
      PathExact(Fill(vol, k, true).value, ino, b, i + 1);
    }
  }

  lemma DataClean(vol: Volume, ino: nat, b: FileBlock)
    requires vol.Sized()
    ensures CleanFill(vol, Key(ino, Path(b)[|Path(b)| - 1]))
  {
    DataSlotInjective(b, b);
  }
}
