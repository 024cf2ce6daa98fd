// ObjectInfo: eleven scalar and string fields and the oneof `extra`.
module ObjectMessage {
  import opened Bytes
  import opened Varints
  import opened Wire
  import opened Codec
  import opened ComputedSizes
  import opened Failures
  import opened RoundTrip
  import opened Runtime
  import opened Messages
  import opened LeafMessages

  /** The union `extra_` together with `_oneof_case_`. */
  datatype Extra = NotSet | Player(player: Triple) | Monster(monster: MonsterExtra)

  function ExtraObjects(e: Extra): set<object> {
    match e
    case NotSet => {}
    case Player(p) => {p}
    case Monster(q) => {q}
  }

  const EXTRA: Slot := Choice(ExtraCases())

  ghost predicate ExtraHolds(e: Extra, v: Val)
    reads ExtraObjects(e)
  {
    match e
    case NotSet => v == Unset
    case Player(p) => p.Valid() && v == Chosen(0, p.View())
    case Monster(q) => q.Valid() && v == Chosen(1, q.View())
  }

  ghost predicate ExtraCachesRight(e: Extra)
    reads ExtraObjects(e)
  {
    match e
    case NotSet => true
    case Player(p) => p.CachesRight()
    case Monster(q) => q.CachesRight()
  }

  lemma ExtraOf(m: Msg)
    requires Codec.Valid(ObjectInfoSchema(), m)
    ensures |m.vals| == 12 && ValidVal(EXTRA, m.vals[11])
    ensures Fits(ObjectInfoSchema(), m, INT_MAX) ==>
                FitsVal(EXTRA, m.vals[11], INT_MAX) && m.vals[4].Str? && |m.vals[4].s| <= INT_MAX
  {
    assert ObjectInfoSchema().slots[11] == EXTRA;
    assert ValidVal(ObjectInfoSchema().slots[4], m.vals[4]);
    assert Fits(ObjectInfoSchema(), m, INT_MAX) ==> FitsVal(ObjectInfoSchema().slots[4], m.vals[4], INT_MAX);
  }

  /** A record of field 100 or 101 parses its payload into the current or a fresh submessage. */
  lemma {:induction false} ExtraTurn(m: Msg, s: bytes, ptr: nat, payload: bytes, next: nat, j: nat, ok: bool, x: Msg)
    requires Codec.Valid(ObjectInfoSchema(), m) && j < 2 && RecordRead(s, ptr, Record(100 + j, Len(payload)), next)
    requires |m.vals| == 12 && ValidVal(EXTRA, m.vals[11])
    requires Parsed(ExtraCases()[j].sub, CaseBase(ExtraCases(), m.vals[11], j), payload, ok, x)
    ensures Codec.Valid(ObjectInfoSchema(), Put(m, 11, Chosen(j, x)))
    ensures if ok then Continues(ObjectInfoSchema(), s, m, ptr, Put(m, 11, Chosen(j, x)), next)
            else Fails(ObjectInfoSchema(), s, m, ptr, Put(m, 11, Chosen(j, x)))
  {
    hide Parse, AfterFailure, RecordRead, ValidVal, Codec.Valid;
    ObjectInfoSchemaOk();
    ChoiceTurn(ObjectInfoSchema(), m, s, ptr, 100 + j, payload, next, 11, j, ok, x);
  }

  /** Its length is refused after the submessage was made current. */
  lemma {:induction false} ExtraBroken(m: Msg, s: bytes, ptr: nat, tag: nat, p: nat, j: nat)
    requires Codec.Valid(ObjectInfoSchema(), m) && j < 2 && tag == 8 * (100 + j) + 2
    requires TagRead(s, ptr, tag, p) && ReadRecord(s[ptr..]).None?
    ensures |m.vals| == 12 && ValidVal(EXTRA, m.vals[11])
    ensures var left := Put(m, 11, Chosen(j, CaseBase(ExtraCases(), m.vals[11], j)));
            Codec.Valid(ObjectInfoSchema(), left) && Fails(ObjectInfoSchema(), s, m, ptr, left)
  {
    hide Parse, AfterFailure, TagRead, ValidVal, Codec.Valid;
    ObjectInfoSchemaOk();
    ExtraOf(m);
    BrokenChoice(ObjectInfoSchema(), m, s, ptr, tag, p, 11, j);
  }

  lemma DefaultObjectInfo()
    ensures Default(ObjectInfoSchema()) ==
            Msg([Num(0), Num(0), Num(0), Num(0), Str([]), Num(0), Num(0), Num(0), Num(0), Num(0), Num(0), Unset], [])
  {}

  function MergedNumber(a: Val, b: Val): Val {
    if b == Num(0) then a else b
  }

  /** The fields of the merged message, given what the oneof becomes. */
  function MergedFields(a: seq<Val>, b: seq<Val>, extra: Val): seq<Val>
    requires |a| == 12 && |b| == 12
  {
    [MergedNumber(a[0], b[0]), MergedNumber(a[1], b[1]), MergedNumber(a[2], b[2]), MergedNumber(a[3], b[3]),
     if b[4] == Str([]) then a[4] else b[4],
     MergedNumber(a[5], b[5]), MergedNumber(a[6], b[6]), MergedNumber(a[7], b[7]), MergedNumber(a[8], b[8]),
     MergedNumber(a[9], b[9]), MergedNumber(a[10], b[10]), extra]
  }

  class ObjectInfo {
    var objectId: uint64
    var objectType: int32
    var state: int32
    var dir: int32
    var name: bytes
    var hp: int32
    var maxHp: int32
    var attack: int32
    var defence: int32
    var posX: int32
    var posY: int32
    var extra: Extra
    var unknown: seq<Record>
    var cachedSize: int32

    ghost var extraView: Val // what the oneof holds

    ghost predicate Valid()
      reads this, ExtraObjects(extra)
    {
      ExtraHolds(extra, extraView) && Codec.Valid(ObjectInfoSchema(), View())
    }

    ghost function View(): Msg
      reads this
    {
      Msg([Num(objectId), Num(objectType), Num(state), Num(dir), Str(name), Num(hp), Num(maxHp),
           Num(attack), Num(defence), Num(posX), Num(posY), extraView], unknown)
    }

    ghost predicate CachesRight()
      requires Valid()
      reads this, ExtraObjects(extra)
    {
      ExtraCachesRight(extra) && cachedSize == ToCachedSize(ComputedSize(ObjectInfoSchema(), View()))
    }

    constructor ()
      ensures Valid() && View() == Default(ObjectInfoSchema()) && extra == NotSet
    {
      hide Default, Codec.Valid;
      DefaultObjectInfo();
      name := [];
      objectId, objectType, state, dir, hp, maxHp := 0, 0, 0, 0, 0, 0;
      attack, defence, posX, posY := 0, 0, 0, 0;
      extra, extraView := NotSet, Unset;
      unknown, cachedSize := [], 0;
    }

    /** Unknown fields, the name if it is not empty, a block copy of the scalars, then a switch on the oneof. */
    constructor Copy(from: ObjectInfo)
      requires from.Valid()
      ensures Valid() && View() == from.View() && fresh(ExtraObjects(extra))
    {
      unknown := from.unknown;
      name := if from.name != [] then from.name else [];
      objectId, objectType, state, dir := from.objectId, from.objectType, from.state, from.dir;
      hp, maxHp := from.hp, from.maxHp;
      attack, defence, posX, posY := from.attack, from.defence, from.posX, from.posY;
      extra, extraView := NotSet, Unset;
      cachedSize := 0;
      new;
      hide Codec.Valid, ValidVal, ExtraHolds;
      ExtraOf(from.View());
      CopyExtra(from.extra, from.extraView);
    }

    /** The switch of the copy constructor, on a message without extra. */
    method CopyExtra(from: Extra, ghost v: Val)
      requires extra == NotSet && extraView == Unset && ExtraHolds(from, v) && ValidVal(EXTRA, v)
      modifies this`extra, this`extraView
      ensures ExtraHolds(extra, extraView) && extraView == v && fresh(ExtraObjects(extra))
    {
      hide MergeVal;
      MergeValIntoDefault(EXTRA, v);
      MergeExtra(from, v);
    }

    method ClearExtra()
      modifies this`extra, this`extraView
      ensures extra == NotSet && extraView == Unset
    {
      extra, extraView := NotSet, Unset;
    }

    /** If the case differs, clear the oneof, set the case and create a default submessage. */
    method MutablePlayer() returns (p: Triple)
      requires ExtraHolds(extra, extraView) && ValidVal(EXTRA, extraView)
      modifies this`extra, this`extraView
      ensures extra == Player(p) && p.Valid() && p.View() == CaseBase(ExtraCases(), old(extraView), 0)
      ensures if old(extra).Player? then p == old(extra).player else fresh(p)
    {
      if !extra.Player? {
        ClearExtra();
        p := new Triple();
        extra := Player(p);
      }
      p := extra.player;
    }

    method MutableMonster() returns (q: MonsterExtra)
      requires ExtraHolds(extra, extraView) && ValidVal(EXTRA, extraView)
      modifies this`extra, this`extraView
      ensures extra == Monster(q) && q.Valid() && q.View() == CaseBase(ExtraCases(), old(extraView), 1)
      ensures if old(extra).Monster? then q == old(extra).monster else fresh(q)
    {
      if !extra.Monster? {
        ClearExtra();
        q := new MonsterExtra();
        extra := Monster(q);
      }
      q := extra.monster;
    }

    method MergeExtra(from: Extra, ghost v: Val)
      requires ExtraHolds(extra, extraView) && ValidVal(EXTRA, extraView)
      requires ExtraHolds(from, v) && ValidVal(EXTRA, v) && ExtraObjects(from) !! ExtraObjects(extra)
      modifies this`extra, this`extraView, ExtraObjects(extra)
      ensures ExtraHolds(extra, extraView) && ExtraHolds(from, v)
      ensures extraView == MergeVal(EXTRA, old(extraView), v)
      ensures fresh(ExtraObjects(extra) - old(ExtraObjects(extra)))
    {
      match from
      case Player(p) =>
        var mine := MutablePlayer();
        mine.MergeFrom(p);
        extraView := Chosen(0, mine.View());
      case Monster(q) =>
        var mine := MutableMonster();
        mine.MergeFrom(q);
        extraView := Chosen(1, mine.View());
      case NotSet =>
    }

    /** The memset over the block of scalars. */
    method ClearScalars()
      modifies this`objectId, this`objectType, this`state, this`dir, this`hp, this`maxHp,
               this`attack, this`defence, this`posX, this`posY
      ensures View().vals == [Num(0), Num(0), Num(0), Num(0), Str(name), Num(0), Num(0),
                              Num(0), Num(0), Num(0), Num(0), extraView]
    {
      objectId, objectType, state, dir, hp, maxHp := 0, 0, 0, 0, 0, 0;
      attack, defence, posX, posY := 0, 0, 0, 0;
    }

    method Clear()
      modifies this
      ensures Valid() && View() == Default(ObjectInfoSchema()) && extra == NotSet
    {
      hide Default, Codec.Valid;
      DefaultObjectInfo();
      name := [];
      ClearScalars();
      ClearExtra();
      unknown := [];
    }

    /** The first half of MergeImpl. */
    method MergeIdentity(from: ObjectInfo)
      requires from != this
      modifies this`name, this`objectId, this`objectType, this`state, this`dir
      ensures Num(objectId) == MergedNumber(Num(old(objectId)), Num(from.objectId))
      ensures Num(objectType) == MergedNumber(Num(old(objectType)), Num(from.objectType))
      ensures Num(state) == MergedNumber(Num(old(state)), Num(from.state))
      ensures Num(dir) == MergedNumber(Num(old(dir)), Num(from.dir))
      ensures Str(name) == if Str(from.name) == Str([]) then Str(old(name)) else Str(from.name)
    {
      if from.name != [] { name := from.name; }
      if from.objectId != 0 { objectId := from.objectId; }
      if from.objectType != 0 { objectType := from.objectType; }
      if from.state != 0 { state := from.state; }
      if from.dir != 0 { dir := from.dir; }
    }

    /** The second half of MergeImpl. */
    method MergeStats(from: ObjectInfo)
      requires from != this
      modifies this`hp, this`maxHp, this`attack, this`defence, this`posX, this`posY
      ensures Num(hp) == MergedNumber(Num(old(hp)), Num(from.hp))
      ensures Num(maxHp) == MergedNumber(Num(old(maxHp)), Num(from.maxHp))
      ensures Num(attack) == MergedNumber(Num(old(attack)), Num(from.attack))
      ensures Num(defence) == MergedNumber(Num(old(defence)), Num(from.defence))
      ensures Num(posX) == MergedNumber(Num(old(posX)), Num(from.posX))
      ensures Num(posY) == MergedNumber(Num(old(posY)), Num(from.posY))
    {
      if from.hp != 0 { hp := from.hp; }
      if from.maxHp != 0 { maxHp := from.maxHp; }
      if from.attack != 0 { attack := from.attack; }
      if from.defence != 0 { defence := from.defence; }
      if from.posX != 0 { posX := from.posX; }
      if from.posY != 0 { posY := from.posY; }
    }

    method MergeScalars(from: ObjectInfo)
      requires from != this
      modifies this`objectId, this`objectType, this`state, this`dir, this`name, this`hp, this`maxHp,
               this`attack, this`defence, this`posX, this`posY
      ensures View().vals == MergedFields(old(View()).vals, from.View().vals, extraView)
    {
      hide MergedNumber;
      MergeIdentity(from);
      MergeStats(from);
    }

    /** MergeImpl up to the unknown fields. */
    method MergeKnown(from: ObjectInfo)
      requires ExtraHolds(extra, extraView) && ValidVal(EXTRA, extraView) && from != this
      requires ExtraHolds(from.extra, from.extraView) && ValidVal(EXTRA, from.extraView)
      requires ExtraObjects(from.extra) !! ExtraObjects(extra)
      modifies this`objectId, this`objectType, this`state, this`dir, this`name, this`hp, this`maxHp,
               this`attack, this`defence, this`posX, this`posY, this`extra, this`extraView, ExtraObjects(extra)
      ensures ExtraHolds(extra, extraView) && fresh(ExtraObjects(extra) - old(ExtraObjects(extra)))
      ensures View().vals == MergedFields(old(View()).vals, old(from.View()).vals,
                                          MergeVal(EXTRA, old(extraView), old(from.extraView)))
    {
      hide MergedNumber, MergeVal, ValidVal, ExtraHolds;
      MergeScalars(from);
      MergeExtra(from.extra, from.extraView);
    }

    method MergeFrom(from: ObjectInfo)
      requires Valid() && from.Valid() && from != this && ExtraObjects(from.extra) !! ExtraObjects(extra)
      modifies this, ExtraObjects(extra)
      ensures Valid() && View() == Merge(ObjectInfoSchema(), old(View()), old(from.View()))
      ensures cachedSize == old(cachedSize) && fresh(ExtraObjects(extra) - old(ExtraObjects(extra)))
    {
      hide MergedFields, MergeVal, Merge, Codec.Valid, ValidVal, ExtraHolds;
      ObjectInfoMerge(View(), from.View());
      MergeKnown(from);
      unknown := unknown + from.unknown;
    }

    method CopyFrom(from: ObjectInfo)
      requires Valid() && from.Valid() && (from == this || ExtraObjects(from.extra) !! ExtraObjects(extra))
      modifies this
      ensures Valid() && View() == old(from.View())
    {
      if from == this { return; }
      Clear();
      MergeFrom(from);
      MergeIntoDefault(ObjectInfoSchema(), old(from.View()));
    }

    /** Field 1. */
    method ParseObjectId(s: bytes, ghost ptr: nat, tag: nat, p: nat) returns (ok: bool, next: nat)
      requires Codec.Valid(ObjectInfoSchema(), View()) && TagRead(s, ptr, tag, p) && tag == 8
      modifies this`objectId
      ensures Codec.Valid(ObjectInfoSchema(), View())
      ensures ok ==> Continues(ObjectInfoSchema(), s, old(View()), ptr, View(), next)
      ensures !ok ==> Fails(ObjectInfoSchema(), s, old(View()), ptr, View())
    {
      hide Continues, Fails, ValidVal, TagRead, Codec.Valid;
      ghost var m := View();
      ObjectInfoSchemaOk();
      var v;
      ok, v, next := ReadNumber(s, ptr, tag, p, UInt64, ObjectInfoSchema(), m, 0);
      objectId := v;
      assert View() == Put(m, 0, Num(v));
    }

    /** Field 2. */
    method ParseKind(s: bytes, ghost ptr: nat, tag: nat, p: nat) returns (ok: bool, next: nat)
      requires Codec.Valid(ObjectInfoSchema(), View()) && TagRead(s, ptr, tag, p) && tag == 16
      modifies this`objectType
      ensures Codec.Valid(ObjectInfoSchema(), View())
      ensures ok ==> Continues(ObjectInfoSchema(), s, old(View()), ptr, View(), next)
      ensures !ok ==> Fails(ObjectInfoSchema(), s, old(View()), ptr, View())
    {
      hide Continues, Fails, ValidVal, TagRead, Codec.Valid;
      ghost var m := View();
      ObjectInfoSchemaOk();
      var v;
      ok, v, next := ReadNumber(s, ptr, tag, p, Enum, ObjectInfoSchema(), m, 1);
      if ok { objectType := v; assert View() == Put(m, 1, Num(v)); }
    }

    /** Fields 3 and 4. */
    method ParsePose(s: bytes, ghost ptr: nat, tag: nat, p: nat) returns (ok: bool, next: nat)
      requires Codec.Valid(ObjectInfoSchema(), View()) && TagRead(s, ptr, tag, p) && (tag == 24 || tag == 32)
      modifies this`state, this`dir
      ensures Codec.Valid(ObjectInfoSchema(), View())
      ensures ok ==> Continues(ObjectInfoSchema(), s, old(View()), ptr, View(), next)
      ensures !ok ==> Fails(ObjectInfoSchema(), s, old(View()), ptr, View())
    {
      hide Continues, Fails, ValidVal, TagRead, Codec.Valid;
      ghost var sc, m := ObjectInfoSchema(), View();
      ObjectInfoSchemaOk();
      var v;
      if tag == 24 {
        ok, v, next := ReadNumber(s, ptr, tag, p, Enum, sc, m, 2);
        if ok { state := v; assert View() == Put(m, 2, Num(v)); }
      } else {
        ok, v, next := ReadNumber(s, ptr, tag, p, Enum, sc, m, 3);
        if ok { dir := v; assert View() == Put(m, 3, Num(v)); }
      }
    }

    /** Fields 6 and 7. */
    method ParseHealth(s: bytes, ghost ptr: nat, tag: nat, p: nat) returns (ok: bool, next: nat)
      requires Codec.Valid(ObjectInfoSchema(), View()) && TagRead(s, ptr, tag, p) && (tag == 48 || tag == 56)
      modifies this`hp, this`maxHp
      ensures Codec.Valid(ObjectInfoSchema(), View())
      ensures ok ==> Continues(ObjectInfoSchema(), s, old(View()), ptr, View(), next)
      ensures !ok ==> Fails(ObjectInfoSchema(), s, old(View()), ptr, View())
    {
      hide Continues, Fails, ValidVal, TagRead, Codec.Valid;
      ghost var sc, m := ObjectInfoSchema(), View();
      ObjectInfoSchemaOk();
      var v;
      if tag == 48 {
        ok, v, next := ReadNumber(s, ptr, tag, p, Int32, sc, m, 5);
        hp := v;
        assert View() == Put(m, 5, Num(v));
      } else {
        ok, v, next := ReadNumber(s, ptr, tag, p, Int32, sc, m, 6);
        maxHp := v;
        assert View() == Put(m, 6, Num(v));
      }
    }

    /** Fields 8 and 9. */
    method ParseCombat(s: bytes, ghost ptr: nat, tag: nat, p: nat) returns (ok: bool, next: nat)
      requires Codec.Valid(ObjectInfoSchema(), View()) && TagRead(s, ptr, tag, p) && (tag == 64 || tag == 72)
      modifies this`attack, this`defence
      ensures Codec.Valid(ObjectInfoSchema(), View())
      ensures ok ==> Continues(ObjectInfoSchema(), s, old(View()), ptr, View(), next)
      ensures !ok ==> Fails(ObjectInfoSchema(), s, old(View()), ptr, View())
    {
      hide Continues, Fails, ValidVal, TagRead, Codec.Valid;
      ghost var sc, m := ObjectInfoSchema(), View();
      ObjectInfoSchemaOk();
      var v;
      if tag == 64 {
        ok, v, next := ReadNumber(s, ptr, tag, p, Int32, sc, m, 7);
        attack := v;
        assert View() == Put(m, 7, Num(v));
      } else {
        ok, v, next := ReadNumber(s, ptr, tag, p, Int32, sc, m, 8);
        defence := v;
        assert View() == Put(m, 8, Num(v));
      }
    }

    /** Fields 10 and 11. */
    method ParsePosition(s: bytes, ghost ptr: nat, tag: nat, p: nat) returns (ok: bool, next: nat)
      requires Codec.Valid(ObjectInfoSchema(), View()) && TagRead(s, ptr, tag, p) && (tag == 80 || tag == 88)
      modifies this`posX, this`posY
      ensures Codec.Valid(ObjectInfoSchema(), View())
      ensures ok ==> Continues(ObjectInfoSchema(), s, old(View()), ptr, View(), next)
      ensures !ok ==> Fails(ObjectInfoSchema(), s, old(View()), ptr, View())
    {
      hide Continues, Fails, ValidVal, TagRead, Codec.Valid;
      ghost var sc, m := ObjectInfoSchema(), View();
      ObjectInfoSchemaOk();
      var v;
      if tag == 80 {
        ok, v, next := ReadNumber(s, ptr, tag, p, Int32, sc, m, 9);
        posX := v;
        assert View() == Put(m, 9, Num(v));
      } else {
        ok, v, next := ReadNumber(s, ptr, tag, p, Int32, sc, m, 10);
        posY := v;
        assert View() == Put(m, 10, Num(v));
      }
    }

    /** ParseMessage(_internal_mutable_player(), ptr). */
    method ParsePlayer(s: bytes, ghost ptr: nat, tag: nat, p: nat) returns (ok: bool, next: nat)
      requires Valid() && TagRead(s, ptr, tag, p) && tag == 802
      modifies this`extra, this`extraView, ExtraObjects(extra)
      ensures Valid() && fresh(ExtraObjects(extra) - old(ExtraObjects(extra)))
      ensures ok ==> Continues(ObjectInfoSchema(), s, old(View()), ptr, View(), next)
      ensures !ok ==> Fails(ObjectInfoSchema(), s, old(View()), ptr, View())
    {
      hide Continues, Fails, ValidVal, Parsed, Codec.Valid, RecordRead, ObjectInfoSchema;
      ghost var sc, m := ObjectInfoSchema(), View();
      ExtraOf(m);
      var player := MutablePlayer();
      var payload;
      ok, payload, next := ReadPayloadAt(s, ptr, tag, p);
      ghost var read := ok;
      if ok { ok := player.InternalParse(payload); } else { ExtraBroken(m, s, ptr, tag, p, 0); }
      extraView := Chosen(0, player.View());
      assert View() == Put(m, 11, extraView);
      if read { ExtraTurn(m, s, ptr, payload, next, 0, ok, player.View()); }
    }

    /** ParseMessage(_internal_mutable_monster(), ptr). */
    method ParseMonster(s: bytes, ghost ptr: nat, tag: nat, p: nat) returns (ok: bool, next: nat)
      requires Valid() && TagRead(s, ptr, tag, p) && tag == 810
      modifies this`extra, this`extraView, ExtraObjects(extra)
      ensures Valid() && fresh(ExtraObjects(extra) - old(ExtraObjects(extra)))
      ensures ok ==> Continues(ObjectInfoSchema(), s, old(View()), ptr, View(), next)
      ensures !ok ==> Fails(ObjectInfoSchema(), s, old(View()), ptr, View())
    {
      hide Continues, Fails, ValidVal, Parsed, Codec.Valid, RecordRead, ObjectInfoSchema;
      ghost var sc, m := ObjectInfoSchema(), View();
      ExtraOf(m);
      var monster := MutableMonster();
      var payload;
      ok, payload, next := ReadPayloadAt(s, ptr, tag, p);
      ghost var read := ok;
      if ok { ok := monster.InternalParse(payload); } else { ExtraBroken(m, s, ptr, tag, p, 1); }
      extraView := Chosen(1, monster.View());
      assert View() == Put(m, 11, extraView);
      if read { ExtraTurn(m, s, ptr, payload, next, 1, ok, monster.View()); }
    }

    method ParseName(s: bytes, ghost ptr: nat, tag: nat, p: nat) returns (ok: bool, next: nat)
      requires Codec.Valid(ObjectInfoSchema(), View()) && TagRead(s, ptr, tag, p) && tag == 42
      modifies this`name
      ensures Codec.Valid(ObjectInfoSchema(), View())
      ensures ok ==> Continues(ObjectInfoSchema(), s, old(View()), ptr, View(), next)
      ensures !ok ==> Fails(ObjectInfoSchema(), s, old(View()), ptr, View())
    {
      hide Continues, Fails, ValidVal, TagRead, Codec.Valid;
      ghost var m := View();
      ObjectInfoSchemaOk();
      var stored, v;
      ok, stored, v, next := ReadText(s, ptr, tag, p, ObjectInfoSchema(), m, 4);
      if stored { name := v; assert View() == Put(m, 4, Str(v)); }
    }

    method ParseUnknown(s: bytes, ghost ptr: nat, tag: nat, p: nat) returns (ok: bool, next: nat)
      requires Codec.Valid(ObjectInfoSchema(), View()) && TagRead(s, ptr, tag, p) && !KnownTag(tag)
      modifies this`unknown
      ensures Codec.Valid(ObjectInfoSchema(), View())
      ensures ok ==> Continues(ObjectInfoSchema(), s, old(View()), ptr, View(), next)
      ensures !ok ==> Fails(ObjectInfoSchema(), s, old(View()), ptr, View())
    {
      hide Continues, Fails, ValidVal, TagRead, Codec.Valid;
      ghost var m := View();
      UnknownTag(tag);
      var added, r;
      ok, added, r, next := ReadUnknown(s, ptr, tag, p, ObjectInfoSchema(), m);
      if added { unknown := unknown + [r]; assert View() == m.(unknown := m.unknown + [r]); }
    }

    /** The tag switch: the field number selects the case, the low byte of the tag must then match. */
    method ParseField(s: bytes, ghost ptr: nat, tag: nat, p: nat) returns (ok: bool, next: nat)
      requires Valid() && TagRead(s, ptr, tag, p)
      modifies this, ExtraObjects(extra)
      ensures Valid() && fresh(ExtraObjects(extra) - old(ExtraObjects(extra)))
      ensures ok ==> Continues(ObjectInfoSchema(), s, old(View()), ptr, View(), next)
      ensures !ok ==> Fails(ObjectInfoSchema(), s, old(View()), ptr, View())
    {
      hide Continues, Fails, Codec.Valid, TagRead;
      var num, low := tag / 8, tag % 256;
      if num == 1 && low == 8 {
        ok, next := ParseObjectId(s, ptr, tag, p);
      } else if num == 2 && low == 16 {
        ok, next := ParseKind(s, ptr, tag, p);
      } else if (num == 3 && low == 24) || (num == 4 && low == 32) {
        ok, next := ParsePose(s, ptr, tag, p);
      } else if num == 5 && low == 42 {
        ok, next := ParseName(s, ptr, tag, p);
      } else if (num == 6 && low == 48) || (num == 7 && low == 56) {
        ok, next := ParseHealth(s, ptr, tag, p);
      } else if (num == 8 && low == 64) || (num == 9 && low == 72) {
        ok, next := ParseCombat(s, ptr, tag, p);
      } else if (num == 10 && low == 80) || (num == 11 && low == 88) {
        ok, next := ParsePosition(s, ptr, tag, p);
      } else if num == 100 && low == 34 {
        ok, next := ParsePlayer(s, ptr, tag, p);
      } else if num == 101 && low == 42 {
        ok, next := ParseMonster(s, ptr, tag, p);
      } else {
        ok, next := ParseUnknown(s, ptr, tag, p);
      }
    }

    method InternalParse(s: bytes) returns (ok: bool)
      requires Valid()
      modifies this, ExtraObjects(extra)
      ensures fresh(ExtraObjects(extra) - old(ExtraObjects(extra)))
      ensures Valid() && Parsed(ObjectInfoSchema(), old(View()), s, ok, View())
    {
      hide Codec.Valid, Parse, AfterFailure, Fails, Parsed;
      var ptr := 0;
      ghost var sc, m := ObjectInfoSchema(), View();
      while ptr < |s|
        invariant ptr <= |s| && Valid() && m == View()
        invariant fresh(ExtraObjects(extra) - old(ExtraObjects(extra)))
        invariant Reached(sc, s, old(View()), 0, m, ptr)
      {
        ghost var at := ptr;
        var tag, p;
        ok, tag, p := ReadTagAt(s, ptr);
        if ok { ok, ptr := ParseField(s, at, tag, p); } else { NoTurn(sc, m, s, at); }
        if !ok {
          ReachedFails(sc, s, old(View()), 0, m, at, View());
          FailsAtStart(sc, s, old(View()), View());
          return;
        }
        ReachedNext(sc, s, old(View()), 0, m, at, View(), ptr);
        m := View();
      }
      ReachedEnd(sc, s, old(View()), m);
      return true;
    }

    /** The switch on the oneof: MessageSize of the submessage, whose cache is filled on the way. */
    method ExtraSize() returns (size: nat)
      requires ExtraHolds(extra, extraView) && ValidVal(EXTRA, extraView)
      modifies ExtraObjects(extra)
      ensures unchanged(this) && ExtraHolds(extra, extraView) && ExtraCachesRight(extra)
      ensures size == ComputedSlot(EXTRA, extraView)
    {
      hide Serialize, ComputedSize, LengthDelimitedSize;
      size := 0;
      match extra
      case Player(p) =>
        size := p.ByteSizeLong();
        size := 2 + LengthDelimitedSize(size);
      case Monster(q) =>
        size := q.ByteSizeLong();
        size := 2 + LengthDelimitedSize(size);
      case NotSet =>
    }

    /** The sum over all fields; the submessage's cache is filled on the way. */
    method TotalSize() returns (total: nat)
      requires Valid()
      modifies ExtraObjects(extra)
      ensures unchanged(this) && Valid() && ExtraCachesRight(extra)
      ensures total == ComputedSize(ObjectInfoSchema(), View())
    {
      hide Codec.Valid, ComputedSize, ComputedSlot, ValidVal, ExtraHolds, ExtraCachesRight;
      ExtraOf(View());
      ObjectInfoSlots(View());
      var unknownSize := UnknownSize(unknown);
      total := FieldsSize();
      var size := ExtraSize();
      assert View() == old(View());
      total := total + size + unknownSize;
    }

    /** The name and the scalars: all but the oneof and the unknown fields. */
    function FieldsSize(): (r: nat)
      requires Valid()
      reads this, ExtraObjects(extra)
      ensures ValidVal(EXTRA, extraView)
      ensures r + ComputedSlot(EXTRA, extraView) + |Emit(unknown)| == ComputedSize(ObjectInfoSchema(), View())
    {
      hide Codec.Valid, ComputedSize, ComputedSlot, ValidVal, ExtraHolds, Emit;
      ObjectInfoSize(View());
      TextFieldSize(5, name) + ScalarSize()
    }

    /** One call fills both levels of caches. */
    method ByteSizeLong() returns (total: nat)
      requires Valid()
      modifies this`cachedSize, ExtraObjects(extra)
      ensures Valid() && View() == old(View()) && CachesRight()
      ensures total == ComputedSize(ObjectInfoSchema(), View())
    {
      hide Codec.Valid, ComputedSize;
      total := TotalSize();
      assert View() == old(View());
      cachedSize := ToCachedSize(total);
    }

    /** The scalar fields in the order ByteSizeLong visits them. */
    function ScalarSize(): (r: nat)
      reads this
      ensures r == ComputedSlot(Number(1, UInt64), Num(objectId)) + ComputedSlot(Number(2, Enum), Num(objectType)) +
                   ComputedSlot(Number(3, Enum), Num(state)) + ComputedSlot(Number(4, Enum), Num(dir)) +
                   ComputedSlot(Number(6, Int32), Num(hp)) + ComputedSlot(Number(7, Int32), Num(maxHp)) +
                   ComputedSlot(Number(8, Int32), Num(attack)) + ComputedSlot(Number(9, Int32), Num(defence)) +
                   ComputedSlot(Number(10, Int32), Num(posX)) + ComputedSlot(Number(11, Int32), Num(posY))
    {
      hide SlotBytes;
      FieldSize(1, UInt64, objectId) + FieldSize(2, Enum, objectType) + FieldSize(3, Enum, state) +
      FieldSize(4, Enum, dir) + FieldSize(6, Int32, hp) + FieldSize(7, Int32, maxHp) + FieldSize(8, Int32, attack) +
      FieldSize(9, Int32, defence) + FieldSize(10, Int32, posX) + FieldSize(11, Int32, posY)
    }

    /** InternalWriteMessage with the submessage's cached size. */
    method SerializeExtra(target: bytes) returns (out: bytes)
      requires ExtraHolds(extra, extraView) && ExtraCachesRight(extra)
      requires ValidVal(EXTRA, extraView) && FitsVal(EXTRA, extraView, INT_MAX)
      ensures out == target + SlotBytes(EXTRA, extraView)
    {
      hide Serialize, ComputedSize, EncodeVarint, SlotBytes, EmitRecord;
      ChosenBytes(ExtraCases(), extraView);
      match extra
      case Player(p) =>
        FitsSize(TripleSchema(), p.View());
        CachedSizeReadsBack(|Serialize(TripleSchema(), p.View())|);
        out := WriteHeader(100, p.cachedSize, target);
        HeaderAndBody(100, Serialize(TripleSchema(), p.View()), target, out);
        out := p.InternalSerialize(out);
      case Monster(q) =>
        FitsSize(MonsterExtraSchema(), q.View());
        CachedSizeReadsBack(|Serialize(MonsterExtraSchema(), q.View())|);
        out := WriteHeader(101, q.cachedSize, target);
        HeaderAndBody(101, Serialize(MonsterExtraSchema(), q.View()), target, out);
        out := q.InternalSerialize(out);
      case NotSet =>
        out := target;
    }

    /** Fields 1 to 5. */
    method SerializeIdentity(target: bytes) returns (out: bytes)
      requires Valid() && |name| <= INT_MAX
      ensures out == target + Written(ObjectInfoSchema(), View(), 5)
    {
      hide Codec.Valid, SlotBytes, ValidVal, Written, ExtraHolds;
      ghost var sc, m := ObjectInfoSchema(), View();
      ObjectInfoSlots(m);
      WriteStart(sc, m, target);
      var o1 := WriteField(1, UInt64, objectId, target);
      WriteSlot(sc, m, 0, target, target, o1);
      var o2 := WriteField(2, Enum, objectType, o1);
      WriteSlot(sc, m, 1, target, o1, o2);
      var o3 := WriteField(3, Enum, state, o2);
      WriteSlot(sc, m, 2, target, o2, o3);
      var o4 := WriteField(4, Enum, dir, o3);
      WriteSlot(sc, m, 3, target, o3, o4);
      out := WriteTextField(5, name, o4);
      WriteSlot(sc, m, 4, target, o4, out);
    }

    /** Fields 6 to 11. */
    method SerializeStats(ghost target: bytes, before: bytes) returns (out: bytes)
      requires Valid() && before == target + Written(ObjectInfoSchema(), View(), 5)
      ensures out == target + Written(ObjectInfoSchema(), View(), 11)
    {
      hide Codec.Valid, SlotBytes, ValidVal, Written, ExtraHolds;
      ghost var sc, m := ObjectInfoSchema(), View();
      ObjectInfoSlots(m);
      var o6 := WriteField(6, Int32, hp, before);
      WriteSlot(sc, m, 5, target, before, o6);
      var o7 := WriteField(7, Int32, maxHp, o6);
      WriteSlot(sc, m, 6, target, o6, o7);
      var o8 := WriteField(8, Int32, attack, o7);
      WriteSlot(sc, m, 7, target, o7, o8);
      var o9 := WriteField(9, Int32, defence, o8);
      WriteSlot(sc, m, 8, target, o8, o9);
      var o10 := WriteField(10, Int32, posX, o9);
      WriteSlot(sc, m, 9, target, o9, o10);
      out := WriteField(11, Int32, posY, o10);
      WriteSlot(sc, m, 10, target, o10, out);
    }

    method InternalSerialize(target: bytes) returns (out: bytes)
      requires Valid() && CachesRight() && Fits(ObjectInfoSchema(), View(), INT_MAX)
      ensures out == target + Serialize(ObjectInfoSchema(), View())
    {
      hide Codec.Valid, Fits, Serialize, SlotBytes, ValidVal, FitsVal, Written, Emit;
      ghost var sc, m := ObjectInfoSchema(), View();
      ExtraOf(m);
      ObjectInfoSlots(m);
      var o5 := SerializeIdentity(target);
      var o11 := SerializeStats(target, o5);
      var o12 := SerializeExtra(o11);
      WriteSlot(sc, m, 11, target, o11, o12);
      out := WriteUnknown(unknown, o12);
      WriteEnd(sc, m, target, o12);
    }
  }

  predicate KnownTag(tag: nat) {
    (tag <= 88 && tag % 8 == 0 && 8 <= tag && tag != 40) || tag == 42 || tag == 802 || tag == 810
  }

  lemma UnknownTag(tag: nat)
    requires !KnownTag(tag)
    ensures forall i :: 0 <= i < 12 ==> !Accepts(ObjectInfoSchema().slots[i], tag / 8, tag % 8)
  {}

  /** Slots 0 to 10 of ObjectInfo merge field by field, zero and empty meaning absent. */
  lemma FieldMerged(i: nat, a: Val, b: Val)
    requires i < 11 && ValidVal(ObjectInfoSchema().slots[i], a) && ValidVal(ObjectInfoSchema().slots[i], b)
    ensures MergeVal(ObjectInfoSchema().slots[i], a, b) ==
            if i == 4 then (if b == Str([]) then a else b) else MergedNumber(a, b)
  {}

  lemma ObjectInfoMerge(a: Msg, b: Msg)
    requires Codec.Valid(ObjectInfoSchema(), a) && Codec.Valid(ObjectInfoSchema(), b)
    ensures |a.vals| == 12 && |b.vals| == 12 && ValidVal(EXTRA, a.vals[11]) && ValidVal(EXTRA, b.vals[11])
    ensures Merge(ObjectInfoSchema(), a, b) ==
            Msg(MergedFields(a.vals, b.vals, MergeVal(EXTRA, a.vals[11], b.vals[11])), a.unknown + b.unknown)
  {
    hide MergeVal, MergedNumber, ValidVal;
    ExtraOf(a);
    ExtraOf(b);
    var merged := MergedFields(a.vals, b.vals, MergeVal(EXTRA, a.vals[11], b.vals[11]));
    forall i | 0 <= i < 12
      ensures ValidVal(ObjectInfoSchema().slots[i], a.vals[i]) && ValidVal(ObjectInfoSchema().slots[i], b.vals[i])
      ensures MergeVal(ObjectInfoSchema().slots[i], a.vals[i], b.vals[i]) == merged[i]
    {
      if i < 11 { FieldMerged(i, a.vals[i], b.vals[i]); }
    }
    assert Merge(ObjectInfoSchema(), a, b).vals == merged;
  }

  lemma ObjectInfoSlots(m: Msg)
    requires Codec.Valid(ObjectInfoSchema(), m)
    ensures |m.vals| == 12 && RecordsOk(m.unknown)
    ensures forall i :: 0 <= i < 12 ==> ValidVal(ObjectInfoSchema().slots[i], m.vals[i])
  {}

  lemma {:induction false} ObjectInfoSize(m: Msg)
    requires Codec.Valid(ObjectInfoSchema(), m)
    ensures |m.vals| == 12 && forall i :: 0 <= i < 12 ==> ValidVal(ObjectInfoSchema().slots[i], m.vals[i])
    ensures var slots, vs := ObjectInfoSchema().slots, m.vals;
            ComputedSize(ObjectInfoSchema(), m) ==
            ComputedSlot(slots[0], vs[0]) + ComputedSlot(slots[1], vs[1]) + ComputedSlot(slots[2], vs[2]) +
            ComputedSlot(slots[3], vs[3]) + ComputedSlot(slots[4], vs[4]) + ComputedSlot(slots[5], vs[5]) +
            ComputedSlot(slots[6], vs[6]) + ComputedSlot(slots[7], vs[7]) + ComputedSlot(slots[8], vs[8]) +
            ComputedSlot(slots[9], vs[9]) + ComputedSlot(slots[10], vs[10]) + ComputedSlot(slots[11], vs[11]) +
            |Emit(m.unknown)|
  {
    hide Codec.Valid, ComputedSize, ComputedSlot, ComputedUpTo, ValidVal;
    var sc := ObjectInfoSchema();
    ObjectInfoSlots(m);
    ComputedStart(sc, m);
    ComputedStep(sc, m, 0); ComputedStep(sc, m, 1); ComputedStep(sc, m, 2); ComputedStep(sc, m, 3);
    ComputedStep(sc, m, 4); ComputedStep(sc, m, 5); ComputedStep(sc, m, 6); ComputedStep(sc, m, 7);
    ComputedStep(sc, m, 8); ComputedStep(sc, m, 9); ComputedStep(sc, m, 10); ComputedStep(sc, m, 11);
  }
}
