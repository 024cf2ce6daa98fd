// Merge as an algebra: the default message is a two-sided identity, and merge
// is associative except for leftovers of a oneof that was switched away and back.
module MergeAlgebra {
  import opened Codec
  import opened RoundTrip

  lemma {:induction false} MergeDefaultRight(sc: Schema, m: Msg)
    requires Valid(sc, m)
    ensures Merge(sc, m, Default(sc)) == m
  {
    var d := Default(sc);
    forall i | 0 <= i < |sc.slots|
      ensures MergeVal(sc.slots[i], m.vals[i], d.vals[i]) == m.vals[i]
    {
      match sc.slots[i]
      case Packed(_) => assert m.vals[i].ns + [] == m.vals[i].ns;
      case Repeated(_, _) => assert m.vals[i].ms + [] == m.vals[i].ms;
      case _ =>
    }
    assert Merge(sc, m, d).vals == m.vals;
    assert m.unknown + [] == m.unknown;
  }

  // ---- When merging leaves no trace of its first argument -------------------------

  /** Everything set in `x` is overwritten by `z`: no list, no unknown field and no surviving scalar. */
  predicate Absorbs(sc: Schema, x: Msg, z: Msg)
    requires Valid(sc, x) && Valid(sc, z)
  {
    x.unknown == [] && forall i :: 0 <= i < |sc.slots| ==> AbsorbsVal(sc.slots[i], x.vals[i], z.vals[i])
  }

  predicate AbsorbsVal(slot: Slot, x: Val, z: Val)
    requires ValidVal(slot, x) && ValidVal(slot, z)
  {
    match slot
    case Number(_, _) => x.n == 0 || z.n != 0
    case Text(_) => x.s == [] || z.s != []
    case Packed(_) => x.ns == []
    case Repeated(_, _) => x.ms == []
    case Choice(cases) =>
      x.Unset? || (z.Chosen? && (x.i != z.i || Absorbs(cases[x.i].sub, x.m, z.m)))
  }

  lemma {:induction false} AbsorbedIff(sc: Schema, x: Msg, z: Msg)
    requires Valid(sc, x) && Valid(sc, z)
    ensures Merge(sc, x, z) == z <==> Absorbs(sc, x, z)
    decreases sc
  {
    var m := Merge(sc, x, z);
    forall i | 0 <= i < |sc.slots|
      ensures m.vals[i] == z.vals[i] <==> AbsorbsVal(sc.slots[i], x.vals[i], z.vals[i])
    {
      AbsorbedValIff(sc.slots[i], x.vals[i], z.vals[i]);
    }
    assert m == z ==> |x.unknown| == 0;
    if Absorbs(sc, x, z) {
      assert m.vals == z.vals;
      assert m.unknown == z.unknown;
    }
  }

  lemma {:induction false} AbsorbedValIff(slot: Slot, x: Val, z: Val)
    requires ValidVal(slot, x) && ValidVal(slot, z)
    ensures MergeVal(slot, x, z) == z <==> AbsorbsVal(slot, x, z)
    decreases slot
  {
    match slot
    case Number(_, _) =>
    case Text(_) =>
    case Packed(_) =>
      assert |x.ns + z.ns| == |x.ns| + |z.ns|;
      if x.ns == [] { assert x.ns + z.ns == z.ns; }
    case Repeated(_, _) =>
      assert |x.ms + z.ms| == |x.ms| + |z.ms|;
      if x.ms == [] { assert x.ms + z.ms == z.ms; }
    case Choice(cases) =>
      if z.Chosen? {
        var sub := cases[z.i].sub;
        if x.Chosen? && x.i == z.i { AbsorbedIff(sub, x.m, z.m); }
        else { MergeIntoDefault(sub, z.m); }
      }
  }

  // ---- Associativity ----------------------------------------------------------------

  /**
   * At no level does `b` switch away a oneof case that `a` and `c` share while `c` leaves something
   * of `a`'s submessage visible.
   */
  predicate NoLeftover(sc: Schema, a: Msg, b: Msg, c: Msg)
    requires Valid(sc, a) && Valid(sc, b) && Valid(sc, c)
  {
    forall i :: 0 <= i < |sc.slots| ==> NoLeftoverVal(sc.slots[i], a.vals[i], b.vals[i], c.vals[i])
  }

  predicate NoLeftoverVal(slot: Slot, a: Val, b: Val, c: Val)
    requires ValidVal(slot, a) && ValidVal(slot, b) && ValidVal(slot, c)
  {
    match slot
    case Choice(cases) =>
      a.Chosen? && b.Chosen? && c.Chosen? && a.i == c.i ==>
        var sub := cases[c.i].sub;
        if b.i == c.i then NoLeftover(sub, a.m, b.m, c.m) else Absorbs(sub, a.m, c.m)
    case _ => true
  }

  /** Merge is associative exactly when there is no leftover. */
  lemma {:induction false} MergeAssociativeIff(sc: Schema, a: Msg, b: Msg, c: Msg)
    requires Valid(sc, a) && Valid(sc, b) && Valid(sc, c)
    ensures Merge(sc, Merge(sc, a, b), c) == Merge(sc, a, Merge(sc, b, c)) <==> NoLeftover(sc, a, b, c)
    decreases sc
  {
    var l, r := Merge(sc, Merge(sc, a, b), c), Merge(sc, a, Merge(sc, b, c));
    forall i | 0 <= i < |sc.slots|
      ensures l.vals[i] == r.vals[i] <==> NoLeftoverVal(sc.slots[i], a.vals[i], b.vals[i], c.vals[i])
    {
      AssociativeValIff(sc.slots[i], a.vals[i], b.vals[i], c.vals[i]);
    }
    assert l.unknown == r.unknown;
    if NoLeftover(sc, a, b, c) {
      assert l.vals == r.vals;
    }
  }

  lemma {:induction false} AssociativeValIff(slot: Slot, a: Val, b: Val, c: Val)
    requires ValidVal(slot, a) && ValidVal(slot, b) && ValidVal(slot, c)
    ensures MergeVal(slot, MergeVal(slot, a, b), c) == MergeVal(slot, a, MergeVal(slot, b, c)) <==>
            NoLeftoverVal(slot, a, b, c)
    decreases slot, 1
  {
    match slot
    case Number(_, _) =>
    case Text(_) =>
    case Packed(_) => assert (a.ns + b.ns) + c.ns == a.ns + (b.ns + c.ns);
    case Repeated(_, _) => assert (a.ms + b.ms) + c.ms == a.ms + (b.ms + c.ms);
    case Choice(cases) =>
      if b.Chosen? && c.Chosen? {
        AssociativeChosenIff(slot, a, b, c);
      } else if c.Chosen? {
        MergeIntoDefault(cases[c.i].sub, c.m);
      }
  }

  lemma {:induction false} AssociativeChosenIff(slot: Slot, a: Val, b: Val, c: Val)
    requires slot.Choice? && b.Chosen? && c.Chosen?
    requires ValidVal(slot, a) && ValidVal(slot, b) && ValidVal(slot, c)
    ensures MergeVal(slot, MergeVal(slot, a, b), c) == MergeVal(slot, a, MergeVal(slot, b, c)) <==>
            NoLeftoverVal(slot, a, b, c)
    decreases slot, 0
  {
    var sub := slot.cases[c.i].sub;
    MergeIntoDefault(sub, c.m);
    if b.i == c.i {
      var base := CaseBase(slot.cases, a, c.i);
      MergeAssociativeIff(sub, base, b.m, c.m);
      if !(a.Chosen? && a.i == c.i) {
        MergeIntoDefault(sub, b.m);
        MergeIntoDefault(sub, Merge(sub, b.m, c.m));
      }
    } else if a.Chosen? && a.i == c.i {
      AbsorbedIff(sub, a.m, c.m);
    }
  }

  /** A message without oneofs, at any level below it, merges associatively whatever it is merged with. */
  predicate OneofFree(sc: Schema) {
    forall i :: 0 <= i < |sc.slots| ==> SingleCase(sc.slots[i])
  }

  predicate SingleCase(slot: Slot) {
    slot.Choice? ==> |slot.cases| == 1 && OneofFree(slot.cases[0].sub)
  }

  lemma {:induction false} OneofFreeHasNoLeftover(sc: Schema, a: Msg, b: Msg, c: Msg)
    requires OneofFree(sc) && Valid(sc, a) && Valid(sc, b) && Valid(sc, c)
    ensures NoLeftover(sc, a, b, c)
    decreases sc
  {
    forall i | 0 <= i < |sc.slots|
      ensures NoLeftoverVal(sc.slots[i], a.vals[i], b.vals[i], c.vals[i])
    {
      var slot, x, y, z := sc.slots[i], a.vals[i], b.vals[i], c.vals[i];
      assert SingleCase(slot);
      if slot.Choice? && x.Chosen? && y.Chosen? && z.Chosen? {
        OneofFreeHasNoLeftover(slot.cases[0].sub, x.m, y.m, z.m);
      }
    }
  }

  lemma {:induction false} MergeAssociative(sc: Schema, a: Msg, b: Msg, c: Msg)
    requires OneofFree(sc) && Valid(sc, a) && Valid(sc, b) && Valid(sc, c)
    ensures Merge(sc, Merge(sc, a, b), c) == Merge(sc, a, Merge(sc, b, c))
  {
    OneofFreeHasNoLeftover(sc, a, b, c);
    MergeAssociativeIff(sc, a, b, c);
  }
}
