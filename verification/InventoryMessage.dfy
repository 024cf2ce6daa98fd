// S_InventoryData: repeated ItemInfo submessages read by a run loop, and three
// singular ItemInfo submessages that are allocated when they are first needed.
module InventoryMessage {
  import opened Bytes
  import opened Varints
  import opened Wire
  import opened Codec
  import opened ComputedSizes
  import opened Failures
  import opened RoundTrip
  import opened Runtime
  import opened Messages
  import opened LeafMessages

  const ITEMS: Slot := Repeated(1, TripleSchema())

  function EquippedSlot(num: nat): Slot {
    Choice([Case(num, TripleSchema())])
  }

  // ---- Singular submessages -----------------------------------------------------

  function Objects(e: Triple?): set<object> {
    if e == null then {} else {e}
  }

  /** A null pointer is an absent field; a present one holds a message, perhaps an empty one. */
  ghost predicate EquippedHolds(e: Triple?, v: Val)
    reads Objects(e)
  {
    if e == null then v == Unset else e.Valid() && v == Chosen(0, e.View())
  }

  ghost predicate EquippedCacheRight(e: Triple?)
    reads Objects(e)
  {
    e != null ==> e.CachesRight()
  }

  /** `if (p == nullptr) p = Create(); return p;` */
  method MutableItem(e: Triple?, ghost num: nat, ghost v: Val) returns (p: Triple)
    requires EquippedHolds(e, v) && ValidVal(EquippedSlot(num), v)
    ensures p.Valid() && p.View() == CaseBase(EquippedSlot(num).cases, v, 0)
    ensures if e == null then fresh(p) else p == e
  {
    if e == null {
      p := new Triple();
    } else {
      p := e;
    }
  }

  /** `if (from.has) p = new ItemInfo(*from.p)`. */
  method CopyItem(from: Triple?, ghost v: Val) returns (r: Triple?)
    requires EquippedHolds(from, v)
    ensures EquippedHolds(r, v) && fresh(Objects(r))
  {
    if from == null { return null; }
    r := new Triple.Copy(from);
  }

  method MergeItem(
    e: Triple?, ghost num: nat, ghost v: Val, from: Triple?, ghost w: Val
  ) returns (r: Triple?, ghost x: Val)
    requires EquippedHolds(e, v) && ValidVal(EquippedSlot(num), v)
    requires EquippedHolds(from, w) && ValidVal(EquippedSlot(num), w) && (from == null || from != e)
    modifies Objects(e)
    ensures EquippedHolds(r, x) && x == MergeVal(EquippedSlot(num), v, w)
    ensures fresh(Objects(r) - Objects(e))
  {
    if from == null { return e, v; }
    var p := MutableItem(e, num, v);
    p.MergeFrom(from);
    return p, Chosen(0, p.View());
  }

  /** `if (has) total += 1 + MessageSize(*p)`; the submessage's cache is filled. */
  method ItemFieldSize(e: Triple?, ghost num: nat, ghost v: Val) returns (size: nat)
    requires EquippedHolds(e, v) && ValidVal(EquippedSlot(num), v) && num < 16
    modifies Objects(e)
    ensures EquippedHolds(e, v) && EquippedCacheRight(e) && size == ComputedSlot(EquippedSlot(num), v)
  {
    hide Serialize, ComputedSize, LengthDelimitedSize;
    if e == null { return 0; }
    size := e.ByteSizeLong();
    size := 1 + LengthDelimitedSize(size);
  }

  /** `if (has) target = InternalWriteMessage(num, *p, p->GetCachedSize(), target)`. */
  method WriteItemField(e: Triple?, num: nat, ghost v: Val, target: bytes) returns (out: bytes)
    requires EquippedHolds(e, v) && EquippedCacheRight(e)
    requires ValidVal(EquippedSlot(num), v) && FitsVal(EquippedSlot(num), v, INT_MAX)
    ensures out == target + SlotBytes(EquippedSlot(num), v)
  {
    hide Serialize, ComputedSize, EncodeVarint, SlotBytes, EmitRecord;
    ChosenBytes(EquippedSlot(num).cases, v);
    if e == null { return target; }
    FitsSize(TripleSchema(), e.View());
    CachedSizeReadsBack(|Serialize(TripleSchema(), e.View())|);
    out := WriteHeader(num, e.cachedSize, target);
    HeaderAndBody(num, Serialize(TripleSchema(), e.View()), target, out);
    out := e.InternalSerialize(out);
  }

  /** ParseMessage into the submessage of slot `i`, which is created first if it is absent. */
  method ParseEquipped(e: Triple?, ghost m: Msg, ghost i: nat, s: bytes, ghost ptr: nat, tag: nat, p: nat)
    returns (ok: bool, r: Triple, next: nat)
    requires Codec.Valid(InventoryDataSchema(), m) && 1 <= i < |m.vals| == 4 && tag == 8 * (i + 1) + 2
    requires EquippedHolds(e, m.vals[i]) && ValidVal(EquippedSlot(i + 1), m.vals[i]) && TagRead(s, ptr, tag, p)
    modifies Objects(e)
    ensures r.Valid() && if e == null then fresh(r) else r == e
    ensures Codec.Valid(InventoryDataSchema(), Put(m, i, Chosen(0, r.View())))
    ensures ok ==> Continues(InventoryDataSchema(), s, m, ptr, Put(m, i, Chosen(0, r.View())), next)
    ensures !ok ==> Fails(InventoryDataSchema(), s, m, ptr, Put(m, i, Chosen(0, r.View())))
  {
    hide Continues, Fails, ValidVal, Parsed, Codec.Valid, RecordRead, InventoryDataSchema;
    r := MutableItem(e, i + 1, m.vals[i]);
    var payload;
    ok, payload, next := ReadPayloadAt(s, ptr, tag, p);
    if !ok { EquippedBroken(m, s, ptr, tag, p, i); return; }
    ok := r.InternalParse(payload);
    EquippedTurn(m, s, ptr, payload, next, i, ok, r.View());
  }

  // ---- Repeated submessages ---------------------------------------------------------

  ghost predicate ItemsHold(bs: seq<Triple>, ms: seq<Msg>)
    reads bs
  {
    |bs| == |ms| && forall i :: 0 <= i < |bs| ==> bs[i].View() == ms[i]
  }

  ghost predicate ItemCachesRight(bs: seq<Triple>, k: nat)
    requires k <= |bs|
    reads bs
  {
    forall i :: 0 <= i < k ==> bs[i].CachesRight()
  }

  lemma NoItems()
    ensures ItemsHold([], [])
  {}

  lemma ItemValid(ms: seq<Msg>, i: nat)
    requires ValidVal(ITEMS, Subs(ms)) && i < |ms|
    ensures Codec.Valid(TripleSchema(), ms[i])
  {}

  lemma ItemFits(ms: seq<Msg>, i: nat)
    requires ValidVal(ITEMS, Subs(ms)) && FitsVal(ITEMS, Subs(ms), INT_MAX) && i < |ms|
    ensures Codec.Valid(TripleSchema(), ms[i]) && |Serialize(TripleSchema(), ms[i])| <= INT_MAX
    ensures Fits(TripleSchema(), ms[i], INT_MAX)
  {}

  method WriteItem(bs: seq<Triple>, ghost ms: seq<Msg>, i: nat, target: bytes) returns (out: bytes)
    requires ItemsHold(bs, ms) && ValidVal(ITEMS, Subs(ms)) && FitsVal(ITEMS, Subs(ms), INT_MAX)
    requires i < |bs| && ItemCachesRight(bs, |bs|)
    ensures Codec.Valid(TripleSchema(), ms[i])
    ensures out == target + EmitRecord(Record(1, Len(Serialize(TripleSchema(), ms[i]))))
  {
    hide Serialize, ComputedSize, EncodeVarint, EmitRecord, ValidVal, FitsVal;
    ItemFits(ms, i);
    FitsSize(TripleSchema(), ms[i]);
    CachedSizeReadsBack(|Serialize(TripleSchema(), ms[i])|);
    out := WriteHeader(1, bs[i].cachedSize, target);
    HeaderAndBody(1, Serialize(TripleSchema(), ms[i]), target, out);
    out := bs[i].InternalSerialize(out);
  }

  method SizeItem(bs: seq<Triple>, ghost ms: seq<Msg>, i: nat) returns (size: nat)
    requires ItemsHold(bs, ms) && ValidVal(ITEMS, Subs(ms))
    requires i < |bs| && ItemCachesRight(bs, i)
    modifies bs
    ensures ItemsHold(bs, ms) && ItemCachesRight(bs, i + 1)
    ensures Codec.Valid(TripleSchema(), ms[i]) && size == ComputedSize(TripleSchema(), ms[i])
  {
    hide Serialize, ComputedSize, Codec.Valid, ValidVal;
    ItemValid(ms, i);
    label before:
    size := bs[i].ByteSizeLong();
    forall j | 0 <= j < |bs|
      ensures bs[j].View() == ms[j]
      ensures j < i + 1 ==> bs[j].CachesRight()
    {
      if bs[j] != bs[i] { assert unchanged@before(bs[j]); }
    }
  }

  method CloneItem(from: Triple) returns (b: Triple)
    requires from.Valid()
    ensures fresh(b) && b.Valid() && b.View() == from.View()
  {
    hide Merge, Codec.Valid;
    b := new Triple();
    b.MergeFrom(from);
    MergeIntoDefault(TripleSchema(), from.View());
  }

  /** RepeatedPtrField::MergeFrom: appends a fresh copy of every element. */
  method MergeItems(
    mine: seq<Triple>, ghost held: seq<Msg>, from: seq<Triple>, ghost added: seq<Msg>
  ) returns (all: seq<Triple>)
    requires ItemsHold(mine, held) && ItemsHold(from, added) && ValidVal(ITEMS, Subs(added))
    ensures ItemsHold(all, held + added)
    ensures |all| == |mine| + |from| && all[..|mine|] == mine && forall k :: |mine| <= k < |all| ==> fresh(all[k])
  {
    hide ValidVal, Codec.Valid;
    all := mine;
    assert held + added[..0] == held;
    var i := 0;
    while i < |from|
      invariant i <= |from| && ItemsHold(all, held + added[..i]) && ItemsHold(from, added)
      invariant |all| == |mine| + i && all[..|mine|] == mine && forall k :: |mine| <= k < |all| ==> fresh(all[k])
    {
      ItemValid(added, i);
      var b := CloneItem(from[i]);
      assert held + added[..i + 1] == (held + added[..i]) + [added[i]];
      all := all + [b];
      i := i + 1;
    }
    assert added[..i] == added;
  }

  // ---- The message -----------------------------------------------------------------------

  class InventoryData {
    var items: seq<Triple>
    var weapon: Triple?
    var armor: Triple?
    var potion: Triple?
    var unknown: seq<Record>
    var cachedSize: int32

    ghost var itemViews: seq<Msg> // what the items hold
    ghost var weaponView: Val
    ghost var armorView: Val
    ghost var potionView: Val

    function Equipped(): set<object>
      reads this
    {
      Objects(weapon) + Objects(armor) + Objects(potion)
    }

    /** Every submessage has one owner: the three pointers differ from each other and from the items. */
    ghost predicate Separate()
      reads this
    {
      && Objects(weapon) !! Objects(armor) && Objects(weapon) !! Objects(potion) && Objects(armor) !! Objects(potion)
      && forall i :: 0 <= i < |items| ==> items[i] !in Equipped()
    }

    ghost predicate Holds()
      reads this, items, Equipped()
    {
      && ItemsHold(items, itemViews) && EquippedHolds(weapon, weaponView)
      && EquippedHolds(armor, armorView) && EquippedHolds(potion, potionView)
    }

    ghost predicate Valid()
      reads this, items, Equipped()
    {
      Separate() && Holds() && Codec.Valid(InventoryDataSchema(), View())
    }

    ghost function View(): Msg
      reads this
    {
      Msg([Subs(itemViews), weaponView, armorView, potionView], unknown)
    }

    /** Every cache reachable from this message is right. */
    ghost predicate CachesRight()
      requires Valid()
      reads this, items, Equipped()
    {
      && ItemCachesRight(items, |items|) && EquippedCacheRight(weapon) && EquippedCacheRight(armor)
      && EquippedCacheRight(potion) && cachedSize == ToCachedSize(ComputedSize(InventoryDataSchema(), View()))
    }

    constructor ()
      ensures Valid() && View() == Default(InventoryDataSchema())
    {
      items, weapon, armor, potion, unknown, cachedSize := [], null, null, null, [], 0;
      itemViews, weaponView, armorView, potionView := [], Unset, Unset, Unset;
    }

    static method CopyEquipped(from: InventoryData) returns (w: Triple?, a: Triple?, p: Triple?)
      requires from.EquippedAllHold()
      ensures EquippedHolds(w, from.weaponView) && EquippedHolds(a, from.armorView) && EquippedHolds(p, from.potionView)
      ensures fresh(Objects(w)) && fresh(Objects(a)) && fresh(Objects(p))
      ensures Objects(w) !! Objects(a) && Objects(w) !! Objects(p) && Objects(a) !! Objects(p)
    {
      w := CopyItem(from.weapon, from.weaponView);
      a := CopyItem(from.armor, from.armorView);
      p := CopyItem(from.potion, from.potionView);
    }

    /** Copies of the items, then a new submessage for every pointer that is not null. */
    constructor Copy(from: InventoryData)
      requires from.Valid()
      ensures Valid() && View() == from.View() && fresh(Equipped())
      ensures forall k :: 0 <= k < |items| ==> fresh(items[k])
    {
      hide Codec.Valid, ValidVal, ItemsHold, EquippedHolds;
      NoItems();
      EquippedOf(from.View());
      assert [] + from.itemViews == from.itemViews;
      var copies := MergeItems([], [], from.items, from.itemViews);
      var w, a, p := CopyEquipped(from);
      items, weapon, armor, potion, unknown, cachedSize := copies, w, a, p, from.unknown, 0;
      itemViews, weaponView, armorView, potionView := from.itemViews, from.weaponView, from.armorView, from.potionView;
    }

    method Clear()
      modifies this`items, this`weapon, this`armor, this`potion, this`unknown,
               this`itemViews, this`weaponView, this`armorView, this`potionView
      ensures Valid() && View() == Default(InventoryDataSchema()) && items == [] && Equipped() == {}
    {
      items, itemViews := [], [];
      weapon, weaponView := null, Unset;
      armor, armorView := null, Unset;
      potion, potionView := null, Unset;
      unknown := [];
    }

    method ParseWeapon(s: bytes, ghost ptr: nat, tag: nat, p: nat) returns (ok: bool, next: nat)
      requires Valid() && TagRead(s, ptr, tag, p) && tag == 18
      modifies this`weapon, this`weaponView, Objects(weapon)
      ensures Valid() && fresh(Objects(weapon) - old(Objects(weapon)))
      ensures ok ==> Continues(InventoryDataSchema(), s, old(View()), ptr, View(), next)
      ensures !ok ==> Fails(InventoryDataSchema(), s, old(View()), ptr, View())
    {
      hide Continues, Fails, Codec.Valid, TagRead, InventoryDataSchema, ItemsHold, ValidVal;
      ghost var m := View();
      EquippedOf(m);
      ok, weapon, next := ParseEquipped(weapon, m, 1, s, ptr, tag, p);
      weaponView := Chosen(0, weapon.View());
      assert View() == Put(m, 1, weaponView);
    }

    method ParseArmor(s: bytes, ghost ptr: nat, tag: nat, p: nat) returns (ok: bool, next: nat)
      requires Valid() && TagRead(s, ptr, tag, p) && tag == 26
      modifies this`armor, this`armorView, Objects(armor)
      ensures Valid() && fresh(Objects(armor) - old(Objects(armor)))
      ensures ok ==> Continues(InventoryDataSchema(), s, old(View()), ptr, View(), next)
      ensures !ok ==> Fails(InventoryDataSchema(), s, old(View()), ptr, View())
    {
      hide Continues, Fails, Codec.Valid, TagRead, InventoryDataSchema, ItemsHold, ValidVal;
      ghost var m := View();
      EquippedOf(m);
      ok, armor, next := ParseEquipped(armor, m, 2, s, ptr, tag, p);
      armorView := Chosen(0, armor.View());
      assert View() == Put(m, 2, armorView);
    }

    method ParsePotion(s: bytes, ghost ptr: nat, tag: nat, p: nat) returns (ok: bool, next: nat)
      requires Valid() && TagRead(s, ptr, tag, p) && tag == 34
      modifies this`potion, this`potionView, Objects(potion)
      ensures Valid() && fresh(Objects(potion) - old(Objects(potion)))
      ensures ok ==> Continues(InventoryDataSchema(), s, old(View()), ptr, View(), next)
      ensures !ok ==> Fails(InventoryDataSchema(), s, old(View()), ptr, View())
    {
      hide Continues, Fails, Codec.Valid, TagRead, InventoryDataSchema, ItemsHold, ValidVal;
      ghost var m := View();
      EquippedOf(m);
      ok, potion, next := ParseEquipped(potion, m, 3, s, ptr, tag, p);
      potionView := Chosen(0, potion.View());
      assert View() == Put(m, 3, potionView);
    }

    /** _internal_add_items: a fresh element at the end. */
    method AddItems() returns (b: Triple)
      requires Valid()
      modifies this`items, this`itemViews
      ensures Valid() && fresh(b) && items == old(items) + [b] && b.Valid() && b.View() == Default(TripleSchema())
      ensures itemViews == old(itemViews) + [b.View()] && View() == PutSub(old(View()), 0, b.View())
    {
      hide ValidVal, Codec.Valid, EquippedHolds;
      b := new Triple();
      PutSubValid(InventoryDataSchema(), View(), 0, b.View());
      items, itemViews := items + [b], itemViews + [b.View()];
      assert View() == PutSub(old(View()), 0, b.View());
    }

    /** The last item parses `payload`; everything else keeps its value. */
    method ParseLastItem(payload: bytes) returns (ok: bool, ghost x: Msg)
      requires Separate() && Holds() && items != [] && items[|items| - 1] !in items[..|items| - 1]
      requires items[|items| - 1].Valid()
      modifies this`itemViews, items[|items| - 1]
      ensures Separate() && Holds() && Codec.Valid(TripleSchema(), x)
      ensures itemViews == old(itemViews)[..|old(itemViews)| - 1] + [x]
      ensures old(|itemViews| == |items|)
      ensures Parsed(TripleSchema(), old(items[|items| - 1].View()), payload, ok, x)
    {
      hide Parsed, Codec.Valid;
      var last := |items| - 1;
      label before:
      ok := items[last].InternalParse(payload);
      x := items[last].View();
      itemViews := itemViews[..last] + [x];
      forall j | 0 <= j < |items|
        ensures items[j].View() == itemViews[j]
      {
        if j < last { assert items[j] in items[..last]; assert unchanged@before(items[j]); }
      }
    }

    /** ParseMessage(_internal_add_items(), ptr): the record at `ptr`, its tag already read. */
    method ParseAddedItem(s: bytes, ghost ptr: nat, tag: nat, p: nat) returns (ok: bool, next: nat)
      requires Valid() && TagRead(s, ptr, tag, p) && tag == 10
      modifies this`items, this`itemViews
      ensures Valid()
      ensures ok ==> Continues(InventoryDataSchema(), s, old(View()), ptr, View(), next)
      ensures !ok ==> Fails(InventoryDataSchema(), s, old(View()), ptr, View())
    {
      hide Continues, Fails, ValidVal, Parsed, RecordRead, Codec.Valid, ItemsHold, EquippedHolds;
      ghost var sc, m := InventoryDataSchema(), View();
      InventoryDataSchemaOk();
      var b := AddItems();
      var payload;
      ok, payload, next := ReadPayloadAt(s, ptr, tag, p);
      if !ok { BrokenSub(sc, m, s, ptr, tag, p, 0); return; }
      ghost var x;
      assert items[..|items| - 1] == old(items);
      assert itemViews == m.vals[0].ms + [Default(TripleSchema())] && itemViews[..|itemViews| - 1] == m.vals[0].ms;
      ok, x := ParseLastItem(payload);
      assert itemViews == m.vals[0].ms + [x];
      assert View() == PutSub(m, 0, x);
      PutSubValid(sc, m, 0, x);
      SubTurn(sc, m, s, ptr, 1, payload, next, 0, ok, x);
    }

    /** The run loop over consecutive items; `available` is DataAvailable, false at any buffer seam. */
    method ParseItems(s: bytes, ghost start: nat, tag: nat, p: nat) returns (ok: bool, ptr: nat)
      requires Valid() && TagRead(s, start, tag, p) && tag == 10
      modifies this`items, this`itemViews
      ensures Valid()
      ensures ok ==> Continues(InventoryDataSchema(), s, old(View()), start, View(), ptr)
      ensures !ok ==> Fails(InventoryDataSchema(), s, old(View()), start, View())
    {
      hide Codec.Valid, Parse, AfterFailure, Fails, Parsed, Separate, Holds;
      ghost var record, m := start, View();
      ptr := p - 1;
      while true
        invariant ptr + 1 <= |s| && Valid() && TagRead(s, record, 10, ptr + 1)
        invariant Reached(InventoryDataSchema(), s, old(View()), start, m, record) && m == View()
        decreases |s| - record
      {
        ptr := ptr + 1;
        ok, ptr := ParseAddedItem(s, record, 10, ptr);
        if !ok { ReachedFails(InventoryDataSchema(), s, old(View()), start, m, record, View()); return; }
        ReachedNext(InventoryDataSchema(), s, old(View()), start, m, record, View(), ptr);
        m := View();
        var available: bool := *;
        if !available || ptr >= |s| { break; }
        if s[ptr] != 10 { break; }
        ExpectTag(s, ptr);
        record := ptr;
      }
    }

    method ParseUnknown(s: bytes, ghost ptr: nat, tag: nat, p: nat) returns (ok: bool, next: nat)
      requires Codec.Valid(InventoryDataSchema(), View()) && TagRead(s, ptr, tag, p)
      requires tag != 10 && tag != 18 && tag != 26 && tag != 34
      modifies this`unknown
      ensures Codec.Valid(InventoryDataSchema(), View())
      ensures ok ==> Continues(InventoryDataSchema(), s, old(View()), ptr, View(), next)
      ensures !ok ==> Fails(InventoryDataSchema(), s, old(View()), ptr, View())
    {
      hide Continues, Fails, ValidVal, TagRead, Codec.Valid;
      ghost var m := View();
      var added, r;
      ok, added, r, next := ReadUnknown(s, ptr, tag, p, InventoryDataSchema(), m);
      if added { unknown := unknown + [r]; assert View() == m.(unknown := m.unknown + [r]); }
    }

    method ParseField(s: bytes, ghost ptr: nat, tag: nat, p: nat) returns (ok: bool, next: nat)
      requires Valid() && TagRead(s, ptr, tag, p)
      modifies this, Equipped()
      ensures Valid() && fresh(Equipped() - old(Equipped()))
      ensures ok ==> Continues(InventoryDataSchema(), s, old(View()), ptr, View(), next)
      ensures !ok ==> Fails(InventoryDataSchema(), s, old(View()), ptr, View())
    {
      hide Continues, Fails, Codec.Valid, TagRead, EquippedHolds, ItemsHold;
      if tag / 8 == 1 && tag % 256 == 10 {
        ok, next := ParseItems(s, ptr, tag, p);
      } else if tag / 8 == 2 && tag % 256 == 18 {
        ok, next := ParseWeapon(s, ptr, tag, p);
      } else if tag / 8 == 3 && tag % 256 == 26 {
        ok, next := ParseArmor(s, ptr, tag, p);
      } else if tag / 8 == 4 && tag % 256 == 34 {
        ok, next := ParsePotion(s, ptr, tag, p);
      } else {
        ok, next := ParseUnknown(s, ptr, tag, p);
      }
    }

    method InternalParse(s: bytes) returns (ok: bool)
      requires Valid()
      modifies this, Equipped()
      ensures fresh(Equipped() - old(Equipped()))
      ensures Valid() && Parsed(InventoryDataSchema(), old(View()), s, ok, View())
    {
      hide Codec.Valid, Parse, AfterFailure, Fails, Parsed, Separate, Holds;
      var ptr := 0;
      ghost var sc, m := InventoryDataSchema(), View();
      while ptr < |s|
        invariant ptr <= |s| && Valid() && m == View()
        invariant fresh(Equipped() - old(Equipped()))
        invariant Reached(sc, s, old(View()), 0, m, ptr)
      {
        ghost var at := ptr;
        var tag, p;
        ok, tag, p := ReadTagAt(s, ptr);
        if ok { ok, ptr := ParseField(s, at, tag, p); } else { NoTurn(sc, m, s, at); }
        if !ok {
          ReachedFails(sc, s, old(View()), 0, m, at, View());
          FailsAtStart(sc, s, old(View()), View());
          return;
        }
        ReachedNext(sc, s, old(View()), 0, m, at, View(), ptr);
        m := View();
      }
      ReachedEnd(sc, s, old(View()), m);
      return true;
    }

    ghost predicate EquippedAllHold()
      reads this, Equipped()
    {
      EquippedHolds(weapon, weaponView) && EquippedHolds(armor, armorView) && EquippedHolds(potion, potionView)
    }

    /** What every step of a merge keeps: this message holds its values, and `from` is not touched. */
    ghost predicate Mergeable(from: InventoryData)
      reads this, items, Equipped(), from, from.Equipped()
    {
      from != this && Separate() && Holds() && from.EquippedAllHold() && Equipped() !! from.Equipped()
    }

    method MergeWeapon(from: InventoryData)
      requires Mergeable(from) && ValidVal(EquippedSlot(2), weaponView) && ValidVal(EquippedSlot(2), from.weaponView)
      modifies this`weapon, this`weaponView, Objects(weapon)
      ensures Mergeable(from) && fresh(Objects(weapon) - old(Objects(weapon)))
      ensures weaponView == MergeVal(EquippedSlot(2), old(weaponView), from.weaponView)
    {
      hide ValidVal, MergeVal, ItemsHold, EquippedHolds;
      weapon, weaponView := MergeItem(weapon, 2, weaponView, from.weapon, from.weaponView);
      assert Separate();
      assert Equipped() !! from.Equipped();
      assert from.EquippedAllHold() && Holds();
    }

    method MergeArmor(from: InventoryData)
      requires Mergeable(from) && ValidVal(EquippedSlot(3), armorView) && ValidVal(EquippedSlot(3), from.armorView)
      modifies this`armor, this`armorView, Objects(armor)
      ensures Mergeable(from) && fresh(Objects(armor) - old(Objects(armor)))
      ensures armorView == MergeVal(EquippedSlot(3), old(armorView), from.armorView)
    {
      hide ValidVal, MergeVal, ItemsHold, EquippedHolds;
      armor, armorView := MergeItem(armor, 3, armorView, from.armor, from.armorView);
      assert Separate();
      assert Equipped() !! from.Equipped();
      assert from.EquippedAllHold() && Holds();
    }

    method MergePotion(from: InventoryData)
      requires Mergeable(from) && ValidVal(EquippedSlot(4), potionView) && ValidVal(EquippedSlot(4), from.potionView)
      modifies this`potion, this`potionView, Objects(potion)
      ensures Mergeable(from) && fresh(Objects(potion) - old(Objects(potion)))
      ensures potionView == MergeVal(EquippedSlot(4), old(potionView), from.potionView)
    {
      hide ValidVal, MergeVal, ItemsHold, EquippedHolds;
      potion, potionView := MergeItem(potion, 4, potionView, from.potion, from.potionView);
      assert Separate();
      assert Equipped() !! from.Equipped();
      assert from.EquippedAllHold() && Holds();
    }

    method MergeAllItems(from: InventoryData)
      requires Mergeable(from) && ItemsHold(from.items, from.itemViews) && ValidVal(ITEMS, Subs(from.itemViews))
      modifies this`items, this`itemViews
      ensures Mergeable(from) && itemViews == old(itemViews) + from.itemViews
      ensures |old(items)| <= |items| && items[..|old(items)|] == old(items)
      ensures forall k :: |old(items)| <= k < |items| ==> fresh(items[k])
    {
      hide ValidVal, ItemsHold, EquippedHolds;
      items := MergeItems(items, itemViews, from.items, from.itemViews);
      itemViews := itemViews + from.itemViews;
      assert Separate();
      assert from.EquippedAllHold() && Holds();
    }

    method MergeFields(from: InventoryData)
      requires Mergeable(from) && Codec.Valid(InventoryDataSchema(), View()) && from.Valid()
      modifies this`items, this`weapon, this`armor, this`potion,
               this`itemViews, this`weaponView, this`armorView, this`potionView, Equipped()
      ensures fresh(Equipped() - old(Equipped())) && Mergeable(from)
      ensures |old(items)| <= |items| && items[..|old(items)|] == old(items)
      ensures forall k :: |old(items)| <= k < |items| ==> fresh(items[k])
      ensures Msg(View().vals, old(unknown) + from.unknown) ==
              Merge(InventoryDataSchema(), old(View()), old(from.View()))
    {
      hide ValidVal, MergeVal, Merge, Codec.Valid, ItemsHold, EquippedHolds;
      InventoryMerge(View(), from.View());
      MergeAllItems(from);
      MergeWeapon(from);
      MergeArmor(from);
      MergePotion(from);
    }

    method MergeFrom(from: InventoryData)
      requires Valid() && from.Valid() && from != this && Equipped() !! from.Equipped()
      modifies this`items, this`weapon, this`armor, this`potion, this`unknown,
               this`itemViews, this`weaponView, this`armorView, this`potionView, Equipped()
      ensures fresh(Equipped() - old(Equipped()))
      ensures Valid() && View() == Merge(InventoryDataSchema(), old(View()), old(from.View()))
      ensures |old(items)| <= |items| && items[..|old(items)|] == old(items)
      ensures forall k :: |old(items)| <= k < |items| ==> fresh(items[k])
    {
      hide Merge, Codec.Valid, ItemsHold, EquippedHolds;
      MergeFields(from);
      unknown := unknown + from.unknown;
    }

    method CopyFrom(from: InventoryData)
      requires Valid() && from.Valid() && (from == this || Equipped() !! from.Equipped())
      modifies this`items, this`weapon, this`armor, this`potion, this`unknown,
               this`itemViews, this`weaponView, this`armorView, this`potionView
      ensures Valid() && View() == old(from.View())
    {
      hide ValidVal, Merge, Codec.Valid, ItemsHold, EquippedHolds;
      if from == this { return; }
      Clear();
      MergeFrom(from);
      MergeIntoDefault(InventoryDataSchema(), old(from.View()));
    }

    /** The repeated field comes first; the items' caches are filled on the way. */
    method ItemsSize() returns (total: nat)
      requires Separate() && Holds() && ValidVal(ITEMS, Subs(itemViews))
      modifies items
      ensures Separate() && Holds() && ItemCachesRight(items, |items|)
      ensures total == ComputedSlot(ITEMS, Subs(itemViews))
    {
      hide ComputedSize, LengthDelimitedSize, EquippedHolds, ValidVal;
      total := 1 * |items|;
      var i := 0;
      while i < |items|
        invariant i <= |items| && ItemsHold(items, itemViews) && ItemCachesRight(items, i)
        invariant total == |items| - i + ComputedSubs(1, TripleSchema(), itemViews, i)
      {
        var size := SizeItem(items, itemViews, i);
        total := total + LengthDelimitedSize(size);
        i := i + 1;
      }
    }

    /** The three pointers, one after the other. */
    method EquippedSize() returns (total: nat)
      requires Separate() && Holds() && ItemCachesRight(items, |items|)
      requires ValidVal(EquippedSlot(2), weaponView) && ValidVal(EquippedSlot(3), armorView)
      requires ValidVal(EquippedSlot(4), potionView)
      modifies Equipped()
      ensures Separate() && Holds() && ItemCachesRight(items, |items|)
      ensures EquippedCacheRight(weapon) && EquippedCacheRight(armor) && EquippedCacheRight(potion)
      ensures total == ComputedSlot(EquippedSlot(2), weaponView) + ComputedSlot(EquippedSlot(3), armorView) +
                       ComputedSlot(EquippedSlot(4), potionView)
    {
      hide ValidVal, ComputedSlot, ItemsHold, ItemCachesRight, EquippedHolds, EquippedCacheRight;
      total := ItemFieldSize(weapon, 2, weaponView);
      var size := ItemFieldSize(armor, 3, armorView);
      total := total + size;
      size := ItemFieldSize(potion, 4, potionView);
      total := total + size;
    }

    method TotalSize() returns (total: nat)
      requires Valid()
      modifies items, Equipped()
      ensures Valid() && View() == old(View()) && ItemCachesRight(items, |items|)
      ensures EquippedCacheRight(weapon) && EquippedCacheRight(armor) && EquippedCacheRight(potion)
      ensures total == ComputedSize(InventoryDataSchema(), View())
    {
      hide ComputedSize, ComputedSlot, Codec.Valid, ValidVal, Holds, ItemCachesRight, EquippedCacheRight;
      EquippedOf(View());
      InventorySize(View());
      var unknownSize := UnknownSize(unknown);
      assert Holds();
      total := ItemsSize();
      var size := EquippedSize();
      total := total + size + unknownSize;
    }

    /** One call fills every cache reachable from this message. */
    method ByteSizeLong() returns (total: nat)
      requires Valid()
      modifies this`cachedSize, items, Equipped()
      ensures Valid() && View() == old(View()) && CachesRight()
      ensures total == ComputedSize(InventoryDataSchema(), View())
    {
      hide ComputedSize, Codec.Valid, ItemsHold, EquippedHolds, ItemCachesRight, EquippedCacheRight;
      total := TotalSize();
      cachedSize := ToCachedSize(total);
    }

    /** Writes every item with the length its own cache holds. */
    method SerializeItems(target: bytes) returns (out: bytes)
      requires ItemsHold(items, itemViews) && ItemCachesRight(items, |items|)
      requires ValidVal(ITEMS, Subs(itemViews)) && FitsVal(ITEMS, Subs(itemViews), INT_MAX)
      ensures out == target + SlotBytes(ITEMS, Subs(itemViews))
    {
      hide EmitRecord, Serialize, FitsVal, ValidVal, ItemCachesRight, EncodeVarint, Emit, Codec.Valid;
      out := target;
      var i := 0;
      while i < |items|
        invariant i <= |items| && out == target + SubsUpTo(1, TripleSchema(), itemViews, i)
      {
        ghost var before := out;
        out := WriteItem(items, itemViews, i, out);
        SubsWriteNext(1, TripleSchema(), itemViews, i, target, before, out);
        i := i + 1;
      }
      SubsUpToAll(1, TripleSchema(), itemViews);
    }

    /** Trusts every cached length; with the caches right this is the reference serializer. */
    method InternalSerialize(target: bytes) returns (out: bytes)
      requires Valid() && CachesRight() && Fits(InventoryDataSchema(), View(), INT_MAX)
      ensures out == target + Serialize(InventoryDataSchema(), View())
    {
      hide Serialize, SlotBytes, ValidVal, FitsVal, Fits;
      hide Codec.Valid, ItemsHold, ItemCachesRight, EquippedHolds, EquippedCacheRight;
      ghost var sc, m := InventoryDataSchema(), View();
      EquippedOf(m);
      WriteStart(sc, m, target);
      var o1 := SerializeItems(target);
      WriteSlot(sc, m, 0, target, target, o1);
      var o2 := WriteItemField(weapon, 2, weaponView, o1);
      WriteSlot(sc, m, 1, target, o1, o2);
      var o3 := WriteItemField(armor, 3, armorView, o2);
      WriteSlot(sc, m, 2, target, o2, o3);
      var o4 := WriteItemField(potion, 4, potionView, o3);
      WriteSlot(sc, m, 3, target, o3, o4);
      out := WriteUnknown(unknown, o4);
      WriteEnd(sc, m, target, o4);
    }
  }

  lemma EquippedOf(m: Msg)
    requires Codec.Valid(InventoryDataSchema(), m)
    ensures |m.vals| == 4 && m.vals[0].Subs? && ValidVal(ITEMS, m.vals[0])
    ensures ValidVal(EquippedSlot(2), m.vals[1]) && ValidVal(EquippedSlot(3), m.vals[2]) &&
            ValidVal(EquippedSlot(4), m.vals[3])
    ensures Fits(InventoryDataSchema(), m, INT_MAX) ==>
              && FitsVal(ITEMS, m.vals[0], INT_MAX) && FitsVal(EquippedSlot(2), m.vals[1], INT_MAX)
              && FitsVal(EquippedSlot(3), m.vals[2], INT_MAX) && FitsVal(EquippedSlot(4), m.vals[3], INT_MAX)
  {
    assert InventoryDataSchema().slots[0] == ITEMS;
    assert forall i :: 1 <= i < 4 ==> InventoryDataSchema().slots[i] == EquippedSlot(i + 1);
  }

  lemma {:induction false} EquippedTurn(m: Msg, s: bytes, ptr: nat, payload: bytes, next: nat, i: nat, ok: bool, x: Msg)
    requires Codec.Valid(InventoryDataSchema(), m) && 1 <= i < 4 &&
             RecordRead(s, ptr, Record(i + 1, Len(payload)), next)
    requires |m.vals| == 4 && ValidVal(EquippedSlot(i + 1), m.vals[i])
    requires Parsed(TripleSchema(), CaseBase(EquippedSlot(i + 1).cases, m.vals[i], 0), payload, ok, x)
    ensures Codec.Valid(InventoryDataSchema(), Put(m, i, Chosen(0, x)))
    ensures if ok then Continues(InventoryDataSchema(), s, m, ptr, Put(m, i, Chosen(0, x)), next)
            else Fails(InventoryDataSchema(), s, m, ptr, Put(m, i, Chosen(0, x)))
  {
    hide Parse, AfterFailure, RecordRead, ValidVal, Codec.Valid;
    InventoryDataSchemaOk();
    assert InventoryDataSchema().slots[i] == EquippedSlot(i + 1);
    ChoiceTurn(InventoryDataSchema(), m, s, ptr, i + 1, payload, next, i, 0, ok, x);
  }

  /** The length is refused after the submessage was created. */
  lemma {:induction false} EquippedBroken(m: Msg, s: bytes, ptr: nat, tag: nat, p: nat, i: nat)
    requires Codec.Valid(InventoryDataSchema(), m) && 1 <= i < 4 && tag == 8 * (i + 1) + 2
    requires TagRead(s, ptr, tag, p) && ReadRecord(s[ptr..]).None?
    ensures |m.vals| == 4 && ValidVal(EquippedSlot(i + 1), m.vals[i])
    ensures var left := Put(m, i, Chosen(0, CaseBase(EquippedSlot(i + 1).cases, m.vals[i], 0)));
            Codec.Valid(InventoryDataSchema(), left) && Fails(InventoryDataSchema(), s, m, ptr, left)
  {
    hide Parse, AfterFailure, TagRead, ValidVal, Codec.Valid;
    InventoryDataSchemaOk();
    EquippedOf(m);
    assert InventoryDataSchema().slots[i] == EquippedSlot(i + 1);
    BrokenChoice(InventoryDataSchema(), m, s, ptr, tag, p, i, 0);
  }

  lemma InventoryMerge(a: Msg, b: Msg)
    requires Codec.Valid(InventoryDataSchema(), a) && Codec.Valid(InventoryDataSchema(), b)
    ensures |a.vals| == |b.vals| == 4 && a.vals[0].Subs? && b.vals[0].Subs? && ValidVal(ITEMS, b.vals[0])
    ensures forall i :: 1 <= i < 4 ==>
                ValidVal(EquippedSlot(i + 1), a.vals[i]) && ValidVal(EquippedSlot(i + 1), b.vals[i])
    ensures Merge(InventoryDataSchema(), a, b) ==
            Msg([Subs(a.vals[0].ms + b.vals[0].ms), MergeVal(EquippedSlot(2), a.vals[1], b.vals[1]),
                 MergeVal(EquippedSlot(3), a.vals[2], b.vals[2]), MergeVal(EquippedSlot(4), a.vals[3], b.vals[3])],
                a.unknown + b.unknown)
  {
    EquippedOf(a);
    EquippedOf(b);
    var m := Merge(InventoryDataSchema(), a, b);
    assert forall i :: 1 <= i < 4 ==> InventoryDataSchema().slots[i] == EquippedSlot(i + 1);
    assert m.vals[0] == Subs(a.vals[0].ms + b.vals[0].ms);
  }

  lemma {:induction false} InventorySize(m: Msg)
    requires Codec.Valid(InventoryDataSchema(), m)
    ensures RecordsOk(m.unknown) && |m.vals| == 4 && ValidVal(ITEMS, m.vals[0])
    ensures ValidVal(EquippedSlot(2), m.vals[1]) && ValidVal(EquippedSlot(3), m.vals[2]) &&
            ValidVal(EquippedSlot(4), m.vals[3])
    ensures ComputedSize(InventoryDataSchema(), m) ==
            ComputedSlot(ITEMS, m.vals[0]) + ComputedSlot(EquippedSlot(2), m.vals[1]) +
            ComputedSlot(EquippedSlot(3), m.vals[2]) + ComputedSlot(EquippedSlot(4), m.vals[3]) + |Emit(m.unknown)|
  {
    hide ComputedSize, ComputedSlot, ComputedUpTo, ValidVal;
    var sc := InventoryDataSchema();
    EquippedOf(m);
    ComputedStart(sc, m);
    ComputedStep(sc, m, 0);
    ComputedStep(sc, m, 1);
    ComputedStep(sc, m, 2);
    ComputedStep(sc, m, 3);
  }
}
