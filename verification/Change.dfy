/** Values, change records and the last-writer-wins order
    (rust/p2p-core/src/db/value.rs and rust/p2p-core/src/db/change.rs). */
module Change {
  import opened Bytes
  import opened HybridLogicalClock

  // --------------------------------------------------------------- values

  type I64 = n: int | -0x8000_0000_0000_0000 <= n <= 0x7fff_ffff_ffff_ffff

  /** A SQLite value. A real is its IEEE 754 bit pattern, which is what is stored and compared. */
  datatype SqlValue =
    | Null
    | Int(i: I64)
    | Real(bits: U64)
    | Str(text: Text)
    | Blob(bytes: Text)

  const T_NULL: I64 := 0
  const T_INT: I64 := 1
  const T_REAL: I64 := 2
  const T_TEXT: I64 := 3
  const T_BLOB: I64 := 4

  /** The stored form: a type tag plus canonical bytes. */
  datatype Storage = Storage(vtype: I64, raw: Option<Text>)

  function TwosComplement(i: I64): U64 {
    if i < 0 then i + MAX_U64 + 1 else i
  }

  function FromTwosComplement(u: U64): I64 {
    if u > 0x7fff_ffff_ffff_ffff then u - MAX_U64 - 1 else u
  }

  function ToStorage(v: SqlValue): Storage {
    match v
    case Null => Storage(T_NULL, None)
    case Int(i) => Storage(T_INT, Some(Le(TwosComplement(i), 8)))
    case Real(bits) => Storage(T_REAL, Some(Le(bits, 8)))
    case Str(text) => Storage(T_TEXT, Some(text))
    case Blob(bytes) => Storage(T_BLOB, Some(bytes))
  }

  lemma {:induction false} FromLeBound(bytes: Text)
    ensures FromLe(bytes) < Pow(256, |bytes|)
  {
    if bytes != [] {
      FromLeBound(bytes[1..]);
    }
  }

  function DecodeU64(raw: Option<Text>): Option<U64> {
    if raw.Some? && |raw.value| == 8 then
      PowValues();
      FromLeBound(raw.value);
      Some(FromLe(raw.value))
    else None
  }

  /** `from_storage`; `None` is the codec error. `utf8` is the standard library's validity check. */
  function FromStorage(s: Storage, utf8: Text -> bool): Option<SqlValue> {
    if s.vtype == T_NULL then Some(Null)
    else if s.vtype == T_INT then
      var u := DecodeU64(s.raw);
      if u.Some? then Some(Int(FromTwosComplement(u.value))) else None
    else if s.vtype == T_REAL then
      var u := DecodeU64(s.raw);
      if u.Some? then Some(Real(u.value)) else None
    else if s.vtype == T_TEXT then
      if s.raw.Some? && utf8(s.raw.value) then Some(Str(s.raw.value)) else None
    else if s.vtype == T_BLOB then Some(Blob(if s.raw.Some? then s.raw.value else []))
    else None
  }

  lemma StorageRoundTrip(v: SqlValue, utf8: Text -> bool)
    requires v.Str? ==> utf8(v.text)
    ensures FromStorage(ToStorage(v), utf8) == Some(v)
  {
    PowValues();
    match v {
      case Int(i) => LeRoundTrip(TwosComplement(i), 8);
      case Real(bits) => LeRoundTrip(bits, 8);
      case _ =>
    }
  }

  /** "Did this column change?" may be decided on the stored bytes. */
  lemma StorageInjective(v: SqlValue, w: SqlValue)
    ensures ToStorage(v) == ToStorage(w) <==> v == w
  {
    var any := (t: Text) => true;
    StorageRoundTrip(v, any);
    StorageRoundTrip(w, any);
  }

  // --------------------------------------------------------------- records

  datatype ChangeKind = CellChange | DeleteChange

  function KindCode(k: ChangeKind): Byte {
    match k
    case CellChange => 0
    case DeleteChange => 1
  }

  datatype ChangeRecord = ChangeRecord(
    tbl: Text, pk: Text, col: Text, value: SqlValue, hlc: Hlc, origin: Text,
    kind: ChangeKind, sig: Text)

  /** A row of a replicated table, and one column of it. */
  datatype RowKey = RowKey(tbl: Text, pk: Text)
  datatype CellKey = CellKey(row: RowKey, col: Text)

  function RowOf(rec: ChangeRecord): RowKey {
    RowKey(rec.tbl, rec.pk)
  }

  function CellOf(rec: ChangeRecord): CellKey {
    CellKey(RowOf(rec), rec.col)
  }

  // ------------------------------------------------------------ total order

  /** Identity of a record (the unique index) and its rank (`order_key`) at once. */
  datatype Stamp = Stamp(hlc: Hlc, origin: Text)

  function StampOf(rec: ChangeRecord): Stamp {
    Stamp(rec.hlc, rec.origin)
  }

  predicate StampLt(a: Stamp, b: Stamp) {
    Less(a.hlc, b.hlc) || (a.hlc == b.hlc && Lt(a.origin, b.origin))
  }

  predicate StampLe(a: Stamp, b: Stamp) {
    a == b || StampLt(a, b)
  }

  lemma StampTotal(a: Stamp, b: Stamp)
    ensures StampLe(a, b) <==> !StampLt(b, a)
  {
    LtTotal(a.origin, b.origin);
    LtIrreflexive(a.origin);
    if Lt(a.origin, b.origin) && Lt(b.origin, a.origin) {
      LtTransitive(a.origin, b.origin, a.origin);
    }
  }

  lemma StampTransitive(a: Stamp, b: Stamp, c: Stamp)
    requires StampLe(a, b) && StampLe(b, c)
    ensures StampLe(a, c)
    ensures StampLt(a, b) || StampLt(b, c) ==> StampLt(a, c)
  {
    if a.hlc == b.hlc == c.hlc && a != b && b != c {
      LtTransitive(a.origin, b.origin, c.origin);
    }
  }

  /** `incoming_wins` as the code computes it: a tuple comparison of stored strings. */
  predicate IncomingWins(newHlc: Text, newOrigin: Text, oldHlc: Text, oldOrigin: Text) {
    Lt(oldHlc, newHlc) || (oldHlc == newHlc && Lt(oldOrigin, newOrigin))
  }

  /** The string comparison is the stamp order, so exactly one of two distinct stamps wins. */
  lemma IncomingWinsIsStampOrder(new_: Stamp, old_: Stamp)
    ensures IncomingWins(ToHex(new_.hlc), new_.origin, ToHex(old_.hlc), old_.origin) <==> StampLt(old_, new_)
    ensures new_ != old_ ==>
              (IncomingWins(ToHex(new_.hlc), new_.origin, ToHex(old_.hlc), old_.origin)
               <==> !IncomingWins(ToHex(old_.hlc), old_.origin, ToHex(new_.hlc), new_.origin))
  {
    HexOrderEmbedding(old_.hlc, new_.hlc);
    HexOrderEmbedding(new_.hlc, old_.hlc);
    StampTotal(new_, old_);
    StampTotal(old_, new_);
  }

  // ---------------------------------------------------------------- sorting

  predicate Sorted(s: seq<ChangeRecord>) {
    forall i, j :: 0 <= i < j < |s| ==> StampLe(StampOf(s[i]), StampOf(s[j]))
  }

  /** Places `x` after everything that does not rank above it. */
  function InsertSorted(s: seq<ChangeRecord>, x: ChangeRecord): (r: seq<ChangeRecord>)
    ensures multiset(r) == multiset(s) + multiset{x}
    ensures |r| == |s| + 1
  {
    if s == [] || StampLe(StampOf(s[|s| - 1]), StampOf(x)) then s + [x]
    else
      assert s == s[..|s| - 1] + [s[|s| - 1]];
      InsertSorted(s[..|s| - 1], x) + [s[|s| - 1]]
  }

  /** The stable sort by stamp of `apply_remote` and of the page query. */
  function SortByStamp(s: seq<ChangeRecord>): (r: seq<ChangeRecord>)
    ensures multiset(r) == multiset(s)
    ensures |r| == |s|
  {
    if s == [] then []
    else
      assert s == s[..|s| - 1] + [s[|s| - 1]];
      InsertSorted(SortByStamp(s[..|s| - 1]), s[|s| - 1])
  }

  lemma SameMembers(r: seq<ChangeRecord>, s: seq<ChangeRecord>)
    requires multiset(r) == multiset(s)
    ensures forall x :: x in r <==> x in s
  {
    forall x
      ensures x in r <==> x in s
    {
      assert x in multiset(r) <==> x in multiset(s);
    }
  }

  lemma {:induction false} InsertKeepsSorted(s: seq<ChangeRecord>, x: ChangeRecord)
    requires Sorted(s)
    ensures Sorted(InsertSorted(s, x))
  {
    if s != [] {
      var last := s[|s| - 1];
      StampTotal(StampOf(last), StampOf(x));
      if StampLe(StampOf(last), StampOf(x)) {
        forall i | 0 <= i < |s|
          ensures StampLe(StampOf(s[i]), StampOf(x))
        {
          StampTransitive(StampOf(s[i]), StampOf(last), StampOf(x));
        }
      } else {
        var init := s[..|s| - 1];
        InsertKeepsSorted(init, x);
        var r := InsertSorted(init, x);
        forall i | 0 <= i < |r|
          ensures StampLe(StampOf(r[i]), StampOf(last))
        {
          assert r[i] in multiset(r);
          assert r[i] in init || r[i] == x;
          StampTotal(StampOf(x), StampOf(last));
        }
      }
    }
  }

  lemma {:induction false} SortSorts(s: seq<ChangeRecord>)
    ensures Sorted(SortByStamp(s))
    ensures forall x :: x in SortByStamp(s) <==> x in s
  {
    SameMembers(SortByStamp(s), s);
    if s != [] {
      SortSorts(s[..|s| - 1]);
      InsertKeepsSorted(SortByStamp(s[..|s| - 1]), s[|s| - 1]);
    }
  }

  // -------------------------------------------------------- version vectors

  type VersionVector = map<Text, Hlc>

  /** The record's stamp is at or below the vector's entry for its author. */
  predicate Covers(vv: VersionVector, rec: ChangeRecord) {
    rec.origin in vv && Leq(rec.hlc, vv[rec.origin])
  }

  /** `bump_vv` and `VersionVector::observe` on a present author: the maximum is kept. */
  function Bump(vv: VersionVector, origin: Text, hlc: Hlc): VersionVector {
    if origin in vv && !Less(vv[origin], hlc) then vv else vv[origin := hlc]
  }

  // ------------------------------------------------------ signing pre-image

  const CHANGE_DOMAIN: Text := Ascii("p2p-change-v1")

  function RawBytes(v: SqlValue): Text {
    var s := ToStorage(v);
    if s.raw.Some? then s.raw.value else []
  }

  function SigningTail(rec: ChangeRecord): Text {
    Le(rec.hlc.wallMs, 8) + (Le(rec.hlc.counter, 4) + PutStr(rec.origin))
  }

  function SigningValue(rec: ChangeRecord): Text {
    [KindCode(rec.kind)] + (Le(ToStorage(rec.value).vtype, 8) + (PutStr(RawBytes(rec.value)) + SigningTail(rec)))
  }

  function SigningBytes(rec: ChangeRecord): Text {
    CHANGE_DOMAIN + (PutStr(rec.tbl) + (PutStr(rec.pk) + (PutStr(rec.col) + SigningValue(rec))))
  }

  /** The buffer as the code fills it, field after field. */
  method WriteSigningBytes(rec: ChangeRecord) returns (b: Text)
    ensures b == SigningBytes(rec)
  {
    b := CHANGE_DOMAIN;
    b := b + PutStr(rec.tbl);
    b := b + PutStr(rec.pk);
    b := b + PutStr(rec.col);
    ghost var head := b;
    b := b + [KindCode(rec.kind)];
    b := b + Le(ToStorage(rec.value).vtype, 8);
    b := b + PutStr(RawBytes(rec.value));
    ghost var value := b;
    b := b + Le(rec.hlc.wallMs, 8);
    b := b + Le(rec.hlc.counter, 4);
    b := b + PutStr(rec.origin);
    hide Le, PutStr;
    assert b == value + SigningTail(rec);
    assert value + SigningTail(rec) == head + SigningValue(rec);
    assert head + SigningValue(rec) == SigningBytes(rec);
  }

  /** `verify_author`: `verifies(origin, message, signature)` stands for the Ed25519 check
      against the key inlined in the author's peer id. */
  predicate VerifyAuthor(rec: ChangeRecord, verifies: (Text, Text, Text) -> bool) {
    rec.sig != [] && verifies(rec.origin, SigningBytes(rec), rec.sig)
  }

  predicate Short(rec: ChangeRecord) {
    && |rec.tbl| <= MAX_U32 && |rec.pk| <= MAX_U32 && |rec.col| <= MAX_U32
    && |rec.origin| <= MAX_U32 && |RawBytes(rec.value)| <= MAX_U32
  }

  lemma SigningTailDecodes(a: ChangeRecord, b: ChangeRecord)
    requires |a.origin| <= MAX_U32 && |b.origin| <= MAX_U32
    requires SigningTail(a) == SigningTail(b)
    ensures a.hlc == b.hlc && a.origin == b.origin
  {
    SplitEqual(Le(a.hlc.wallMs, 8), Le(b.hlc.wallMs, 8),
               Le(a.hlc.counter, 4) + PutStr(a.origin), Le(b.hlc.counter, 4) + PutStr(b.origin));
    SplitEqual(Le(a.hlc.counter, 4), Le(b.hlc.counter, 4), PutStr(a.origin), PutStr(b.origin));
    Le8(a.hlc.wallMs, b.hlc.wallMs);
    Le4(a.hlc.counter, b.hlc.counter);
    assert PutStr(a.origin) + [] == PutStr(a.origin) && PutStr(b.origin) + [] == PutStr(b.origin);
    PutStrPrefixFree(a.origin, b.origin, [], []);
  }

  lemma SigningValueDecodes(a: ChangeRecord, b: ChangeRecord)
    requires Short(a) && Short(b)
    requires SigningValue(a) == SigningValue(b)
    ensures a.kind == b.kind && a.value == b.value && a.hlc == b.hlc && a.origin == b.origin
  {
    var ta, tb := ToStorage(a.value).vtype, ToStorage(b.value).vtype;
    SplitEqual([KindCode(a.kind)], [KindCode(b.kind)],
               Le(ta, 8) + (PutStr(RawBytes(a.value)) + SigningTail(a)),
               Le(tb, 8) + (PutStr(RawBytes(b.value)) + SigningTail(b)));
    SplitEqual(Le(ta, 8), Le(tb, 8), PutStr(RawBytes(a.value)) + SigningTail(a),
      PutStr(RawBytes(b.value)) + SigningTail(b));
    Le8(ta, tb);
    PutStrPrefixFree(RawBytes(a.value), RawBytes(b.value), SigningTail(a), SigningTail(b));
    SigningTailDecodes(a, b);
    assert ToStorage(a.value) == ToStorage(b.value);
    StorageInjective(a.value, b.value);
    assert [KindCode(a.kind)][0] == [KindCode(b.kind)][0];
  }

  /** A signature covers exactly one record: equal pre-images mean equal records, signature aside. */
  lemma SigningBytesDecode(a: ChangeRecord, b: ChangeRecord)
    requires Short(a) && Short(b)
    requires SigningBytes(a) == SigningBytes(b)
    ensures a.(sig := b.sig) == b
  {
    var a1, b1 := PutStr(a.col) + SigningValue(a), PutStr(b.col) + SigningValue(b);
    var a2, b2 := PutStr(a.pk) + a1, PutStr(b.pk) + b1;
    SplitEqual(CHANGE_DOMAIN, CHANGE_DOMAIN, PutStr(a.tbl) + a2, PutStr(b.tbl) + b2);
    PutStrPrefixFree(a.tbl, b.tbl, a2, b2);
    PutStrPrefixFree(a.pk, b.pk, a1, b1);
    PutStrPrefixFree(a.col, b.col, SigningValue(a), SigningValue(b));
    SigningValueDecodes(a, b);
  }

  /** A signature holds for at most one message under a given key. */
  ghost predicate Binding(verifies: (Text, Text, Text) -> bool) {
    forall o: Text, m: Text, n: Text, s: Text :: verifies(o, m, s) && verifies(o, n, s) ==> m == n
  }

  /** A record altered on the way keeps no valid signature, whichever field was touched. */
  lemma EditedRecordIsRefused(a: ChangeRecord, b: ChangeRecord, verifies: (Text, Text, Text) -> bool)
    requires Binding(verifies) && Short(a) && Short(b) && VerifyAuthor(a, verifies)
    requires b.sig == a.sig && b.origin == a.origin && b != a
    ensures !VerifyAuthor(b, verifies)
  {
    if VerifyAuthor(b, verifies) {
      SigningBytesDecode(a, b);
    }
  }

  /** A record that its author signed, and that nobody touched since, passes; without a signature none does. */
  lemma SignedRecordPasses(rec: ChangeRecord, sign: Text -> Text, verifies: (Text, Text, Text) -> bool)
    requires forall m: Text :: sign(m) != [] && verifies(rec.origin, m, sign(m))
    ensures VerifyAuthor(rec.(sig := sign(SigningBytes(rec))), verifies)
    ensures !VerifyAuthor(rec.(sig := []), verifies)
  {
    var m := SigningBytes(rec);
    assert SigningBytes(rec.(sig := sign(m))) == m;
  }

  /** The `as u32` length cast truncates, so fields of 2^32 bytes do collide. */
  lemma LongFieldsCollide(a: ChangeRecord, long: Text)
    requires a.tbl == a.pk == a.col == []
    requires long == seq(0x1_0000_0000, i => 0)
    ensures a.(tbl := long) != a.(col := long)
    ensures SigningBytes(a.(tbl := long)) == SigningBytes(a.(col := long))
  {
    var x, y := a.(tbl := long), a.(col := long);
    assert |x.tbl| != |y.tbl|;
    assert Le(0, 4) == [0, 0, 0, 0] && Le(0x1_0000_0000, 4) == [0, 0, 0, 0];
    var zeros: Text := [0, 0, 0, 0];
    assert PutStr(long) == zeros + long && PutStr([]) == zeros;
    assert zeros + long == long + zeros;
    assert PutStr(x.tbl) + (PutStr(x.pk) + (PutStr(x.col) + SigningValue(x)))
        == (zeros + long) + zeros + zeros + SigningValue(x);
    assert (zeros + long) + zeros + zeros == zeros + zeros + (zeros + long);
    assert PutStr(y.tbl) + (PutStr(y.pk) + (PutStr(y.col) + SigningValue(y)))
        == zeros + zeros + (zeros + long) + SigningValue(y);
  }
}
