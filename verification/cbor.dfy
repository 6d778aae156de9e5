/**
 * The CBOR reader: what it reads, byte by byte, and that this is exactly the
 * definite-length part of RFC 8949, section 3, without tags and floats.
 */
module Cbor {
  import opened ByteStrings

  const TWO_63: nat := 0x8000_0000_0000_0000
  const TWO_64: nat := 0x1_0000_0000_0000_0000
  const MAX_ITEMS: nat := 0x1000_0000_0000   // the longest slice of interface values; making a longer one panics

  /** What a read returns; a map is a Go map, later entries replacing earlier ones. */
  datatype Value =
    | Int(i: int)
    | ByteString(bytes: Bytes)
    | Text(bytes: Bytes)
    | Array(items: seq<Value>)
    | Map(entries: map<Value, Value>)
    | Bool(b: bool)
    | Null

  /** Byte strings, arrays and maps cannot be keys of a Go map: using one panics. */
  predicate Hashable(v: Value) {
    v.Int? || v.Text? || v.Bool? || v.Null?
  }

  datatype Outcome = Parsed(value: Value, next: nat) | Malformed | Panic

  // ------------------------------------------------------------ the reader, as a function

  /** The conversion of a uint64 to an int64. */
  function ToInt64(n: nat): int {
    if n % TWO_64 < TWO_63 then n % TWO_64 else n % TWO_64 - TWO_64
  }

  function BigEndian(b: Bytes): nat {
    if b == [] then 0 else 256 * BigEndian(b[..|b| - 1]) + b[|b| - 1] as int
  }

  /** How many bytes of length follow the initial byte. */
  function Following(additional: nat): nat {
    if additional == 24 then 1
    else if additional == 25 then 2
    else if additional == 26 then 4
    else if additional == 27 then 8
    else 0
  }

  function LengthAt(data: Bytes, pos: nat, additional: nat): Option<nat>
    requires pos <= |data|
  {
    if additional < 24 then Some(additional)
    else if additional > 27 || pos + Following(additional) > |data| then None
    else Some(BigEndian(data[pos..pos + Following(additional)]))
  }

  function Parse(data: Bytes, pos: nat): (r: Outcome)
    requires pos <= |data|
    ensures r.Parsed? ==> pos < r.next <= |data|
    decreases |data| - pos, 0
  {
    if pos == |data| then Malformed
    else
      var major, additional := data[pos] as nat / 32, data[pos] as nat % 32;
      var length := LengthAt(data, pos + 1, additional);
      if length.None? then Malformed
          else ParseBody(data, pos + 1 + Following(additional), major, additional, length.value)
  }

  function ParseBody(data: Bytes, at: nat, major: nat, additional: nat, n: nat): (r: Outcome)
    requires at <= |data|
    ensures r.Parsed? ==> at <= r.next <= |data|
    decreases |data| - at, 2
  {
    match major
    case 0 => Parsed(Int(ToInt64(n)), at)
    case 1 => Parsed(Int(-1 - ToInt64(n)), at)
    case 2 => if n > |data| - at then Malformed else Parsed(ByteString(data[at..at + n]), at + n)
    case 3 => if n > |data| - at then Malformed else Parsed(Text(data[at..at + n]), at + n)
    case 4 => if n > MAX_ITEMS then Panic else ParseItems(data, at, n, [])
    case 5 => ParseEntries(data, at, n, map[])
    case 7 =>
      if additional == 20 then Parsed(Bool(false), at)
      else if additional == 21 then Parsed(Bool(true), at)
      else if additional == 22 || additional == 23 then Parsed(Null, at)
      else Malformed
    case _ => Malformed
  }

  function ParseItems(data: Bytes, at: nat, n: nat, sofar: seq<Value>): (r: Outcome)
    requires at <= |data|
    ensures r.Parsed? ==> at <= r.next <= |data|
    decreases |data| - at, 1
  {
    if n == 0 then Parsed(Array(sofar), at)
    else
      var item := Parse(data, at);
      if !item.Parsed? then item else ParseItems(data, item.next, n - 1, sofar + [item.value])
  }

  function ParseEntries(data: Bytes, at: nat, n: nat, sofar: map<Value, Value>): (r: Outcome)
    requires at <= |data|
    ensures r.Parsed? ==> at <= r.next <= |data|
    decreases |data| - at, 1
  {
    if n == 0 then Parsed(Map(sofar), at)
    else
      var key := Parse(data, at);
      if !key.Parsed? then key
      else
        var value := Parse(data, key.next);
        if !value.Parsed? then value
        else if !Hashable(key.value) then Panic
        else ParseEntries(data, value.next, n - 1, sofar[key.value := value.value])
  }

  // ------------------------------------------------------------ the format

  /** Where the argument of a head is stored: in the initial byte, or in 1, 2, 4 or 8 bytes after it. */
  datatype Width = Direct | One | Two | Four | Eight

  datatype Entry = Entry(key: Item, value: Item)

  /** Data items, with the width an encoder chose for each head. */
  datatype Item =
    | Unsigned(n: nat, w: Width)
    | Negative(n: nat, w: Width)
    | ByteStringItem(bytes: Bytes, w: Width)
    | TextItem(bytes: Bytes, w: Width)
    | ArrayItem(items: seq<Item>, w: Width)
    | MapItem(entries: seq<Entry>, w: Width)
    | False | True | NullItem | Undefined

  function Size(w: Width): nat {
    match w case Direct => 0 case One => 1 case Two => 2 case Four => 4 case Eight => 8
  }

  function Additional(w: Width, n: nat): nat {
    match w case Direct => n case One => 24 case Two => 25 case Four => 26 case Eight => 27
  }

  predicate Fits(n: nat, w: Width) {
    match w
    case Direct => n < 24
    case One => n < 0x100
    case Two => n < 0x1_0000
    case Four => n < 0x1_0000_0000
    case Eight => n < TWO_64
  }

  function ToBigEndian(n: nat, k: nat): (b: Bytes)
    ensures |b| == k
  {
    if k == 0 then [] else ToBigEndian(n / 256, k - 1) + [(n % 256) as byte]
  }

  function Head(major: nat, n: nat, w: Width): (b: Bytes)
    requires major < 8 && Fits(n, w)
    ensures |b| == 1 + Size(w)
  {
    [(32 * major + Additional(w, n)) as byte] + ToBigEndian(n, Size(w))
  }

  /** Every length fits the width chosen for it. */
  predicate WellFormed(item: Item) {
    match item
    case Unsigned(n, w) => Fits(n, w)
    case Negative(n, w) => Fits(n, w)
    case ByteStringItem(b, w) => Fits(|b|, w)
    case TextItem(b, w) => Fits(|b|, w)
    case ArrayItem(items, w) => Fits(|items|, w) && |items| <= MAX_ITEMS && forall i :: i in items ==> WellFormed(i)
    case MapItem(entries, w) => Fits(|entries|, w) && forall e :: e in entries ==> EntryWellFormed(e)
    case _ => true
  }

  predicate EntryWellFormed(e: Entry) {
    WellFormed(e.key) && WellFormed(e.value)
  }

  function Encode(item: Item): (b: Bytes)
    requires WellFormed(item)
    ensures |b| >= 1
  {
    match item
    case Unsigned(n, w) => Head(0, n, w)
    case Negative(n, w) => Head(1, n, w)
    case ByteStringItem(b, w) => Head(2, |b|, w) + b
    case TextItem(b, w) => Head(3, |b|, w) + b
    case ArrayItem(items, w) => Head(4, |items|, w) + EncodeItems(items)
    case MapItem(entries, w) => Head(5, |entries|, w) + EncodeEntries(entries)
    case False => [0xF4]
    case True => [0xF5]
    case NullItem => [0xF6]
    case Undefined => [0xF7]
  }

  function EncodeItems(items: seq<Item>): Bytes
    requires forall i :: i in items ==> WellFormed(i)
  {
    if items == [] then [] else Encode(items[0]) + EncodeItems(items[1..])
  }

  function EncodeEntries(entries: seq<Entry>): Bytes
    requires forall e :: e in entries ==> EntryWellFormed(e)
  {
    if entries == [] then [] else EncodeEntry(entries[0]) + EncodeEntries(entries[1..])
  }

  function EncodeEntry(e: Entry): Bytes
    requires EntryWellFormed(e)
  {
    Encode(e.key) + Encode(e.value)
  }

  /** The value the reader makes of an item: integers are int64, null and undefined are both nil. */
  function Meaning(item: Item): Value {
    match item
    case Unsigned(n, _) => Int(ToInt64(n))
    case Negative(n, _) => Int(-1 - ToInt64(n))
    case ByteStringItem(b, _) => ByteString(b)
    case TextItem(b, _) => Text(b)
    case ArrayItem(items, _) => Array(MeaningItems(items))
    case MapItem(entries, _) => Map(MeaningEntries(entries, map[]))
    case False => Bool(false)
    case True => Bool(true)
    case NullItem => Null
    case Undefined => Null
  }

  function MeaningItems(items: seq<Item>): seq<Value> {
    if items == [] then [] else [Meaning(items[0])] + MeaningItems(items[1..])
  }

  function MeaningEntries(entries: seq<Entry>, sofar: map<Value, Value>): map<Value, Value>
    decreases entries
  {
    if entries == [] then sofar else MeaningEntries(entries[1..], With(sofar, entries[0]))
  }

  function With(sofar: map<Value, Value>, e: Entry): map<Value, Value>
    decreases e
  {
    sofar[Meaning(e.key) := Meaning(e.value)]
  }

  /** No map has a key Go cannot hash. */
  predicate HashableKeys(item: Item) {
    match item
    case ArrayItem(items, _) => forall i :: i in items ==> HashableKeys(i)
    case MapItem(entries, _) => forall e :: e in entries ==> EntryHashable(e)
    case _ => true
  }

  predicate EntryHashable(e: Entry) {
    Hashable(Meaning(e.key)) && HashableKeys(e.key) && HashableKeys(e.value)
  }

  // ------------------------------------------------------------ heads

  function Limit(k: nat): nat {
    if k == 0 then 1 else 256 * Limit(k - 1)
  }

  lemma {:induction false} BigEndianBack(n: nat, k: nat)
    requires n < Limit(k)
    ensures BigEndian(ToBigEndian(n, k)) == n
  {
    if k > 0 {
      BigEndianBack(n / 256, k - 1);
      var b := ToBigEndian(n, k);
      assert b[..|b| - 1] == ToBigEndian(n / 256, k - 1);
    }
  }

  lemma {:induction false} ToBigEndianBack(b: Bytes)
    ensures BigEndian(b) < Limit(|b|) && ToBigEndian(BigEndian(b), |b|) == b
  {
    if b != [] {
      ToBigEndianBack(b[..|b| - 1]);
      assert b == b[..|b| - 1] + [b[|b| - 1]];
    }
  }

  lemma FitsLimit(n: nat, w: Width)
    ensures w != Direct ==> (Fits(n, w) <==> n < Limit(Size(w)))
  {
    assert Limit(0) == 1 && Limit(1) == 256 && Limit(2) == 0x1_0000 && Limit(3) == 0x100_0000
        && Limit(4) == 0x1_0000_0000;
    assert Limit(5) == 0x100_0000_0000 && Limit(6) == 0x1_0000_0000_0000 && Limit(7) == 0x100_0000_0000_0000
        && Limit(8) == TWO_64;
  }

  /** Splits an initial byte, and reads the length that follows it. */
  predicate HeadAt(data: Bytes, pos: nat, major: nat, n: nat, w: Width) {
    && pos + 1 + Size(w) <= |data| && Fits(n, w)
    && data[pos] as nat == 32 * major + Additional(w, n)
    && LengthAt(data, pos + 1, Additional(w, n)) == Some(n) && Following(Additional(w, n)) == Size(w)
  }

  lemma HeadIsRead(data: Bytes, pos: nat, major: nat, n: nat, w: Width)
    requires major < 8 && Fits(n, w)
    requires pos + 1 + Size(w) <= |data| && data[pos..pos + 1 + Size(w)] == Head(major, n, w)
    ensures HeadAt(data, pos, major, n, w)
    ensures data[pos] as nat / 32 == major && data[pos] as nat % 32 == Additional(w, n)
  {
    var head := Head(major, n, w);
    assert data[pos] == head[0];
    assert data[pos + 1..pos + 1 + Size(w)] == head[1..] == ToBigEndian(n, Size(w));
    FitsLimit(n, w);
    if w != Direct { BigEndianBack(n, Size(w)); }
  }

  function WidthOf(additional: nat): Width {
    if additional < 24 then Direct else if additional == 24 then One else if additional == 25 then Two
    else if additional == 26 then Four else Eight
  }

  /** What a length was read from is what it is written as. */
  lemma ReadIsLength(data: Bytes, at: nat, additional: nat)
    requires at <= |data| && LengthAt(data, at, additional).Some?
    ensures var w, n := WidthOf(additional), LengthAt(data, at, additional).value;
      && Fits(n, w) && Size(w) == Following(additional) && Additional(w, n) == additional
      && at + Size(w) <= |data| && ToBigEndian(n, Size(w)) == data[at..at + Size(w)]
  {
    hide BigEndian, Limit;
    var w, n := WidthOf(additional), LengthAt(data, at, additional).value;
    ToBigEndianBack(data[at..at + Size(w)]);
    FitsLimit(n, w);
  }

  lemma ReadIsHead(data: Bytes, pos: nat)
    requires pos < |data|
    requires LengthAt(data, pos + 1, data[pos] as nat % 32).Some?
    ensures var additional := data[pos] as nat % 32;
      var w, n := WidthOf(additional), LengthAt(data, pos + 1, additional).value;
      && Fits(n, w) && Size(w) == Following(additional) && data[pos] as nat / 32 < 8
      && pos + 1 + Size(w) <= |data| && data[pos..pos + 1 + Size(w)] == Head(data[pos] as nat / 32, n, w)
  {
    hide LengthAt, ToBigEndian, Fits;
    var additional := data[pos] as nat % 32;
    var w, n := WidthOf(additional), LengthAt(data, pos + 1, additional).value;
    ReadIsLength(data, pos + 1, additional);
    assert data[pos] as nat == 32 * (data[pos] as nat / 32) + additional;
    assert data[pos..pos + 1 + Size(w)] == [data[pos]] + data[pos + 1..pos + 1 + Size(w)];
  }

  // ------------------------------------------------------------ every encoding is read back

  /** The bytes `b` stand at `pos`. */
  predicate At(data: Bytes, pos: nat, b: Bytes) {
    pos + |b| <= |data| && data[pos..pos + |b|] == b
  }

  lemma AtSplit(data: Bytes, pos: nat, a: Bytes, b: Bytes)
    ensures At(data, pos, a + b) <==> At(data, pos, a) && At(data, pos + |a|, b)
  {
    if At(data, pos, a + b) {
      assert data[pos..pos + |a|] == (a + b)[..|a|] == a;
      assert data[pos + |a|..pos + |a| + |b|] == (a + b)[|a|..] == b;
    }
    if At(data, pos, a) && At(data, pos + |a|, b) {
      assert data[pos..pos + |a + b|] == data[pos..pos + |a|] + data[pos + |a|..pos + |a| + |b|];
    }
  }

  lemma ParseHead(data: Bytes, pos: nat, major: nat, n: nat, w: Width)
    requires major < 8 && Fits(n, w) && At(data, pos, Head(major, n, w))
    ensures Parse(data, pos) == ParseBody(data, pos + 1 + Size(w), major, Additional(w, n), n)
  {
    HeadIsRead(data, pos, major, n, w);
  }

  lemma {:induction false} RoundTrip(data: Bytes, pos: nat, item: Item)
    requires WellFormed(item) && HashableKeys(item) && At(data, pos, Encode(item))
    ensures Parse(data, pos) == Parsed(Meaning(item), pos + |Encode(item)|)
    decreases item
  {
    hide Parse, Head, At, ParseItems, ParseEntries, EncodeItems, EncodeEntries, MeaningItems, MeaningEntries;
    match item
    case Unsigned(n, w) => ParseHead(data, pos, 0, n, w);
    case Negative(n, w) => ParseHead(data, pos, 1, n, w);
    case ByteStringItem(b, w) =>
      AtSplit(data, pos, Head(2, |b|, w), b);
      ParseHead(data, pos, 2, |b|, w);
      AtIsSlice(data, pos + 1 + Size(w), b);
    case TextItem(b, w) =>
      AtSplit(data, pos, Head(3, |b|, w), b);
      ParseHead(data, pos, 3, |b|, w);
      AtIsSlice(data, pos + 1 + Size(w), b);
    case ArrayItem(items, w) =>
      AtSplit(data, pos, Head(4, |items|, w), EncodeItems(items));
      ParseHead(data, pos, 4, |items|, w);
      AtIsSlice(data, pos + 1 + Size(w), EncodeItems(items));
      ItemsRoundTrip(data, pos + 1 + Size(w), items, []);
      assert [] + MeaningItems(items) == MeaningItems(items);
    case MapItem(entries, w) =>
      AtSplit(data, pos, Head(5, |entries|, w), EncodeEntries(entries));
      ParseHead(data, pos, 5, |entries|, w);
      AtIsSlice(data, pos + 1 + Size(w), EncodeEntries(entries));
      EntriesRoundTrip(data, pos + 1 + Size(w), entries, map[]);
    case False => ParseSimple(data, pos, 20);
    case True => ParseSimple(data, pos, 21);
    case NullItem => ParseSimple(data, pos, 22);
    case Undefined => ParseSimple(data, pos, 23);
  }

  lemma AtIsSlice(data: Bytes, pos: nat, b: Bytes)
    requires At(data, pos, b)
    ensures pos + |b| <= |data| && data[pos..pos + |b|] == b
  {
  }

  lemma ParseSimple(data: Bytes, pos: nat, value: nat)
    requires 20 <= value <= 23 && At(data, pos, [(0xE0 + value) as byte])
    ensures Parse(data, pos)
        == Parsed(if value == 20 then Bool(false) else if value == 21 then Bool(true) else Null, pos + 1)
  {
    assert data[pos] == data[pos..pos + 1][0];
  }

  lemma {:induction false} ItemsRoundTrip(data: Bytes, at: nat, items: seq<Item>, sofar: seq<Value>)
    requires forall i :: i in items ==> WellFormed(i) && HashableKeys(i)
    requires at <= |data| && At(data, at, EncodeItems(items))
    ensures ParseItems(data, at, |items|, sofar)
        == Parsed(Array(sofar + MeaningItems(items)), at + |EncodeItems(items)|)
    decreases items
  {
    hide Parse, At, Encode, Meaning, WellFormed, HashableKeys;
    if items == [] {
      assert sofar + [] == sofar;
    } else {
      AtSplit(data, at, Encode(items[0]), EncodeItems(items[1..]));
      RoundTrip(data, at, items[0]);
      AtIsSlice(data, at, Encode(items[0]));
      ItemsRoundTrip(data, at + |Encode(items[0])|, items[1..], sofar + [Meaning(items[0])]);
      assert sofar + [Meaning(items[0])] + MeaningItems(items[1..]) == sofar + MeaningItems(items);
    }
  }

  lemma {:induction false} EntriesRoundTrip(data: Bytes, at: nat, entries: seq<Entry>, sofar: map<Value, Value>)
    requires forall e :: e in entries ==> EntryWellFormed(e) && EntryHashable(e)
    requires at <= |data| && At(data, at, EncodeEntries(entries))
    ensures ParseEntries(data, at, |entries|, sofar)
        == Parsed(Map(MeaningEntries(entries, sofar)), at + |EncodeEntries(entries)|)
    decreases entries
  {
    hide Parse, At, Encode, Meaning, WellFormed, HashableKeys, Hashable;
    if entries != [] {
      AtSplit(data, at, EncodeEntry(entries[0]), EncodeEntries(entries[1..]));
      EntryRoundTrip(data, at, entries[0]);
      AtIsSlice(data, at, EncodeEntry(entries[0]));
      EntriesRoundTrip(data, at + |EncodeEntry(entries[0])|, entries[1..], With(sofar, entries[0]));
    }
  }

  lemma {:induction false} EntryRoundTrip(data: Bytes, at: nat, e: Entry)
    requires EntryWellFormed(e) && EntryHashable(e) && at <= |data| && At(data, at, EncodeEntry(e))
    ensures Parse(data, at) == Parsed(Meaning(e.key), at + |Encode(e.key)|)
    ensures at + |Encode(e.key)| <= |data|
    ensures Parse(data, at + |Encode(e.key)|) == Parsed(Meaning(e.value), at + |EncodeEntry(e)|)
    decreases e
  {
    hide Parse, At, Encode, Meaning, WellFormed, HashableKeys, Hashable;
    AtSplit(data, at, Encode(e.key), Encode(e.value));
    AtIsSlice(data, at, Encode(e.key));
    RoundTrip(data, at, e.key);
    RoundTrip(data, at + |Encode(e.key)|, e.value);
  }

  // ------------------------------------------------------------ only encodings are read

  /** An item whose encoding a successful read consumed. */
  ghost predicate Explains(item: Item, data: Bytes, pos: nat, value: Value, next: nat) {
    WellFormed(item) && HashableKeys(item) && Meaning(item) == value && At(data, pos, Encode(item))
        && next == pos + |Encode(item)|
  }

  lemma {:induction false} ReadIsEncoding(data: Bytes, pos: nat) returns (item: Item)
    requires pos <= |data| && Parse(data, pos).Parsed?
    ensures Explains(item, data, pos, Parse(data, pos).value, Parse(data, pos).next)
    decreases |data| - pos, 2
  {
    var major, additional := data[pos] as nat / 32, data[pos] as nat % 32;
    var n := LengthAt(data, pos + 1, additional).value;
    ReadIsHead(data, pos);
    assert At(data, pos, Head(major, n, WidthOf(additional)));
    if major == 7 {
      item := if additional == 20 then False else if additional == 21 then True else if additional == 22 then NullItem
          else Undefined;
      assert data[pos..pos + 1] == [data[pos]];
    } else {
      assert Parse(data, pos) == ParseBody(data, pos + 1 + Size(WidthOf(additional)), major, additional, n);
      hide Parse, Head, At, LengthAt;
      item := BodyIsEncoding(data, pos, major, n, WidthOf(additional), additional);
    }
  }

  lemma {:induction false} BodyIsEncoding(data: Bytes, pos: nat, major: nat, n: nat, w: Width, additional: nat)
    returns (item: Item)
    requires major < 7 && Fits(n, w) && At(data, pos, Head(major, n, w)) && pos + 1 + Size(w) <= |data|
    requires ParseBody(data, pos + 1 + Size(w), major, additional, n).Parsed?
    ensures var r := ParseBody(data, pos + 1 + Size(w), major, additional, n);
      Explains(item, data, pos, r.value, r.next)
    decreases |data| - pos, 1
  {
    var at := pos + 1 + Size(w);
    hide Parse, ParseItems, ParseEntries, Head, At, EncodeItems, EncodeEntries;
    match major {
      case 0 => item := Unsigned(n, w);
      case 1 => item := Negative(n, w);
      case 2 =>
        item := ByteStringItem(data[at..at + n], w);
        SliceIsAt(data, at, n);
        AtSplit(data, pos, Head(2, n, w), data[at..at + n]);
      case 3 =>
        item := TextItem(data[at..at + n], w);
        SliceIsAt(data, at, n);
        AtSplit(data, pos, Head(3, n, w), data[at..at + n]);
      case 4 =>
        var items := ReadIsItems(data, at, n, []);
        item := ArrayItem(items, w);
        AtSplit(data, pos, Head(4, n, w), EncodeItems(items));
        assert [] + MeaningItems(items) == MeaningItems(items);
      case 5 =>
        var entries := ReadIsEntries(data, at, n, map[]);
        item := MapItem(entries, w);
        AtSplit(data, pos, Head(5, n, w), EncodeEntries(entries));
    }
  }

  lemma SliceIsAt(data: Bytes, pos: nat, n: nat)
    requires pos + n <= |data|
    ensures At(data, pos, data[pos..pos + n])
  {
  }

  lemma {:induction false} ReadIsItems(data: Bytes, at: nat, n: nat, sofar: seq<Value>) returns (items: seq<Item>)
    requires at <= |data| && ParseItems(data, at, n, sofar).Parsed?
    ensures |items| == n && (forall i :: i in items ==> WellFormed(i) && HashableKeys(i))
        && At(data, at, EncodeItems(items))
    ensures ParseItems(data, at, n, sofar) == Parsed(Array(sofar + MeaningItems(items)), at + |EncodeItems(items)|)
    decreases |data| - at, 3
  {
    hide Parse, Encode, Meaning, WellFormed, HashableKeys;
    if n == 0 {
      items := [];
      assert sofar + [] == sofar;
    } else {
      var read := Parse(data, at);
      var first := ReadIsEncoding(data, at);
      var rest := ReadIsItems(data, read.next, n - 1, sofar + [read.value]);
      hide At;
      items := [first] + rest;
      assert items[1..] == rest;
      AtSplit(data, at, Encode(first), EncodeItems(rest));
      assert sofar + [read.value] + MeaningItems(rest) == sofar + MeaningItems(items);
    }
  }

  lemma {:induction false} ReadIsEntries(data: Bytes, at: nat, n: nat, sofar: map<Value, Value>)
    returns (entries: seq<Entry>)
    requires at <= |data| && ParseEntries(data, at, n, sofar).Parsed?
    ensures |entries| == n && (forall e :: e in entries ==> EntryWellFormed(e) && EntryHashable(e))
        && At(data, at, EncodeEntries(entries))
    ensures ParseEntries(data, at, n, sofar)
        == Parsed(Map(MeaningEntries(entries, sofar)), at + |EncodeEntries(entries)|)
    decreases |data| - at, 3
  {
    hide Parse, Encode, Meaning, WellFormed, HashableKeys, Hashable;
    if n == 0 {
      entries := [];
    } else {
      var key := Parse(data, at);
      var value := Parse(data, key.next);
      var k := ReadIsEncoding(data, at);
      var v := ReadIsEncoding(data, key.next);
      var first := Entry(k, v);
      var rest := ReadIsEntries(data, value.next, n - 1, With(sofar, first));
      hide At;
      entries := [first] + rest;
      assert entries[1..] == rest;
      AtSplit(data, at, Encode(k), Encode(v));
      AtSplit(data, at, EncodeEntry(first), EncodeEntries(rest));
    }
  }

  // ------------------------------------------------------------ unhashable keys

  lemma {:induction false} UnhashablePanics(data: Bytes, pos: nat, item: Item)
    requires WellFormed(item) && !HashableKeys(item) && At(data, pos, Encode(item))
    ensures Parse(data, pos) == Panic
    decreases item
  {
    hide Parse, Head, At;
    match item
    case ArrayItem(items, w) =>
      AtSplit(data, pos, Head(4, |items|, w), EncodeItems(items));
      ParseHead(data, pos, 4, |items|, w);
      AtIsSlice(data, pos + 1 + Size(w), EncodeItems(items));
      ItemsPanic(data, pos + 1 + Size(w), items, []);
    case MapItem(entries, w) =>
      AtSplit(data, pos, Head(5, |entries|, w), EncodeEntries(entries));
      ParseHead(data, pos, 5, |entries|, w);
      AtIsSlice(data, pos + 1 + Size(w), EncodeEntries(entries));
      EntriesPanic(data, pos + 1 + Size(w), entries, map[]);
    case _ =>
  }

  lemma {:induction false} ItemsPanic(data: Bytes, at: nat, items: seq<Item>, sofar: seq<Value>)
    requires forall i :: i in items ==> WellFormed(i)
    requires exists i :: i in items && !HashableKeys(i)
    requires at <= |data| && At(data, at, EncodeItems(items))
    ensures ParseItems(data, at, |items|, sofar) == Panic
    decreases items
  {
    hide Parse, At, Encode, Meaning, WellFormed, HashableKeys;
    AtSplit(data, at, Encode(items[0]), EncodeItems(items[1..]));
    if HashableKeys(items[0]) {
      RoundTrip(data, at, items[0]);
      AtIsSlice(data, at, Encode(items[0]));
      ItemsPanic(data, at + |Encode(items[0])|, items[1..], sofar + [Meaning(items[0])]);
    } else {
      UnhashablePanics(data, at, items[0]);
    }
  }

  lemma {:induction false} EntriesPanic(data: Bytes, at: nat, entries: seq<Entry>, sofar: map<Value, Value>)
    requires forall e :: e in entries ==> EntryWellFormed(e)
    requires exists e :: e in entries && !EntryHashable(e)
    requires at <= |data| && At(data, at, EncodeEntries(entries))
    ensures ParseEntries(data, at, |entries|, sofar) == Panic
    decreases entries
  {
    hide Parse, At, Encode, Meaning, WellFormed, HashableKeys, Hashable;
    AtSplit(data, at, EncodeEntry(entries[0]), EncodeEntries(entries[1..]));
    AtIsSlice(data, at, EncodeEntry(entries[0]));
    if EntryHashable(entries[0]) {
      EntryRoundTrip(data, at, entries[0]);
      EntriesPanic(data, at + |EncodeEntry(entries[0])|, entries[1..], With(sofar, entries[0]));
    } else {
      EntryPanics(data, at, entries[0]);
    }
  }

  lemma {:induction false} EntryPanics(data: Bytes, at: nat, e: Entry)
    requires EntryWellFormed(e) && !EntryHashable(e) && at <= |data| && At(data, at, EncodeEntry(e))
    ensures Parse(data, at) == Panic ||
      (Parse(data, at).Parsed? && Parse(data, Parse(data, at).next) == Panic) ||
      (Parse(data, at).Parsed? && Parse(data, Parse(data, at).next).Parsed? && !Hashable(Parse(data, at).value))
    decreases e
  {
    hide Parse, At, Encode, Meaning, WellFormed, HashableKeys, Hashable;
    AtSplit(data, at, Encode(e.key), Encode(e.value));
    AtIsSlice(data, at, Encode(e.key));
    if !HashableKeys(e.key) {
      UnhashablePanics(data, at, e.key);
    } else {
      RoundTrip(data, at, e.key);
      if !HashableKeys(e.value) {
        UnhashablePanics(data, at + |Encode(e.key)|, e.value);
      } else {
        RoundTrip(data, at + |Encode(e.key)|, e.value);
      }
    }
  }

  // ------------------------------------------------------------ when a read panics

  /** The way to what makes a read panic: read items before it, and the array or map they are in. */
  datatype Trouble =
    | LongArray(n: nat, w: Width)
    | InArray(n: nat, w: Width, before: seq<Item>, inner: Trouble)
    | InMap(n: nat, w: Width, pairs: seq<Entry>, entry: EntryTrouble)

  datatype EntryTrouble =
    | InKey(inner: Trouble)
    | InValue(key: Item, inner: Trouble)
    | UnhashableKey(key: Item, value: Item)

  predicate Troubling(t: Trouble) {
    match t
    case LongArray(n, w) => Fits(n, w) && n > MAX_ITEMS
    case InArray(n, w, before, inner) =>
      && Fits(n, w) && |before| < n <= MAX_ITEMS
      && (forall i :: i in before ==> WellFormed(i) && HashableKeys(i)) && Troubling(inner)
    case InMap(n, w, pairs, entry) =>
      && Fits(n, w) && |pairs| < n
      && (forall e :: e in pairs ==> EntryWellFormed(e) && EntryHashable(e)) && EntryTroubling(entry)
  }

  predicate EntryTroubling(e: EntryTrouble) {
    match e
    case InKey(inner) => Troubling(inner)
    case InValue(key, inner) => WellFormed(key) && HashableKeys(key) && Troubling(inner)
    case UnhashableKey(key, value) =>
      && WellFormed(key) && HashableKeys(key) && !Hashable(Meaning(key))
      && WellFormed(value) && HashableKeys(value)
  }

  /** The bytes up to what makes the read panic. */
  function Begin(t: Trouble): Bytes
    requires Troubling(t)
  {
    match t
    case LongArray(n, w) => Head(4, n, w)
    case InArray(n, w, before, inner) => Head(4, n, w) + (EncodeItems(before) + Begin(inner))
    case InMap(n, w, pairs, entry) => Head(5, n, w) + (EncodeEntries(pairs) + BeginEntry(entry))
  }

  function BeginEntry(e: EntryTrouble): Bytes
    requires EntryTroubling(e)
  {
    match e
    case InKey(inner) => Begin(inner)
    case InValue(key, inner) => Encode(key) + Begin(inner)
    case UnhashableKey(key, value) => Encode(key) + Encode(value)
  }

  lemma ItemStep(data: Bytes, at: nat, n: nat, sofar: seq<Value>)
    requires at <= |data| && n > 0 && Parse(data, at).Parsed?
    ensures ParseItems(data, at, n, sofar)
        == ParseItems(data, Parse(data, at).next, n - 1, sofar + [Parse(data, at).value])
  {
    hide Parse;
  }

  /** Reading goes on after encoded items as if it had started there. */
  lemma {:induction false} ItemsPass(data: Bytes, at: nat, n: nat, items: seq<Item>, sofar: seq<Value>)
    requires |items| <= n && forall i :: i in items ==> WellFormed(i) && HashableKeys(i)
    requires at <= |data| && At(data, at, EncodeItems(items))
    ensures at + |EncodeItems(items)| <= |data|
    ensures ParseItems(data, at, n, sofar)
        == ParseItems(data, at + |EncodeItems(items)|, n - |items|, sofar + MeaningItems(items))
    decreases items
  {
    hide Parse, ParseItems, At, Encode, Meaning, WellFormed, HashableKeys;
    if items == [] {
      assert sofar + [] == sofar;
    } else {
      var first, rest := items[0], items[1..];
      AtSplit(data, at, Encode(first), EncodeItems(rest));
      RoundTrip(data, at, first);
      AtIsSlice(data, at, Encode(first));
      ItemStep(data, at, n, sofar);
      ItemsPass(data, at + |Encode(first)|, n - 1, rest, sofar + [Meaning(first)]);
      Associative(sofar, [Meaning(first)], MeaningItems(rest));
    }
  }

  lemma {:induction false} EntriesPass(data: Bytes, at: nat, n: nat, entries: seq<Entry>, sofar: map<Value, Value>)
    requires |entries| <= n && (forall e :: e in entries ==> EntryWellFormed(e) && EntryHashable(e))
    requires at <= |data| && At(data, at, EncodeEntries(entries))
    ensures at + |EncodeEntries(entries)| <= |data|
    ensures ParseEntries(data, at, n, sofar)
        == ParseEntries(data, at + |EncodeEntries(entries)|, n - |entries|, MeaningEntries(entries, sofar))
    decreases entries
  {
    hide Parse, At, Encode, Meaning, WellFormed, HashableKeys, Hashable;
    if entries != [] {
      AtSplit(data, at, EncodeEntry(entries[0]), EncodeEntries(entries[1..]));
      EntryRoundTrip(data, at, entries[0]);
      AtIsSlice(data, at, EncodeEntry(entries[0]));
      EntriesPass(data, at + |EncodeEntry(entries[0])|, n - 1, entries[1..], With(sofar, entries[0]));
    }
  }

  lemma {:induction false} TroublePanics(data: Bytes, pos: nat, t: Trouble)
    requires Troubling(t) && pos <= |data| && At(data, pos, Begin(t))
    ensures Parse(data, pos) == Panic
    decreases t
  {
    hide Parse, Head, At, EncodeItems, EncodeEntries, MeaningItems, MeaningEntries;
    match t
    case LongArray(n, w) => ParseHead(data, pos, 4, n, w);
    case InArray(n, w, before, inner) =>
      AtSplit(data, pos, Head(4, n, w), EncodeItems(before) + Begin(inner));
      ParseHead(data, pos, 4, n, w);
      var at := pos + 1 + Size(w);
      AtIsSlice(data, at, EncodeItems(before) + Begin(inner));
      AtSplit(data, at, EncodeItems(before), Begin(inner));
      ItemsPass(data, at, n, before, []);
      TroublePanics(data, at + |EncodeItems(before)|, inner);
    case InMap(n, w, pairs, entry) =>
      AtSplit(data, pos, Head(5, n, w), EncodeEntries(pairs) + BeginEntry(entry));
      ParseHead(data, pos, 5, n, w);
      var at := pos + 1 + Size(w);
      AtIsSlice(data, at, EncodeEntries(pairs) + BeginEntry(entry));
      AtSplit(data, at, EncodeEntries(pairs), BeginEntry(entry));
      EntriesPass(data, at, n, pairs, map[]);
      EntryTroublePanics(data, at + |EncodeEntries(pairs)|, n - |pairs|, entry, MeaningEntries(pairs, map[]));
  }

  lemma {:induction false} EntryTroublePanics(data: Bytes, at: nat, n: nat, e: EntryTrouble, sofar: map<Value, Value>)
    requires EntryTroubling(e) && n > 0 && at <= |data| && At(data, at, BeginEntry(e))
    ensures ParseEntries(data, at, n, sofar) == Panic
    decreases e
  {
    hide Parse, At, Encode, Meaning, WellFormed, HashableKeys, Hashable;
    match e
    case InKey(inner) => TroublePanics(data, at, inner);
    case InValue(key, inner) =>
      AtSplit(data, at, Encode(key), Begin(inner));
      RoundTrip(data, at, key);
      AtIsSlice(data, at, Encode(key));
      TroublePanics(data, at + |Encode(key)|, inner);
    case UnhashableKey(key, value) =>
      AtSplit(data, at, Encode(key), Encode(value));
      RoundTrip(data, at, key);
      AtIsSlice(data, at, Encode(key));
      RoundTrip(data, at + |Encode(key)|, value);
  }

  lemma PanicHasHead(data: Bytes, pos: nat) returns (major: nat, additional: nat, n: nat, w: Width)
    requires pos <= |data| && Parse(data, pos) == Panic
    ensures major < 8 && Fits(n, w) && At(data, pos, Head(major, n, w)) && pos + 1 + Size(w) <= |data|
    ensures ParseBody(data, pos + 1 + Size(w), major, additional, n) == Panic
  {
    hide ParseBody, Head, LengthAt;
    major, additional := data[pos] as nat / 32, data[pos] as nat % 32;
    n, w := LengthAt(data, pos + 1, additional).value, WidthOf(additional);
    ReadIsHead(data, pos);
  }

  lemma {:induction false} PanicIsTrouble(data: Bytes, pos: nat) returns (t: Trouble)
    requires pos <= |data| && Parse(data, pos) == Panic
    ensures Troubling(t) && At(data, pos, Begin(t))
    decreases |data| - pos, 2
  {
    hide Parse, Head, At, Fits, WellFormed, HashableKeys, EncodeItems, EncodeEntries, ParseItems, ParseEntries;
    var major, additional, n, w := PanicHasHead(data, pos);
    var at := pos + 1 + Size(w);
    if major == 4 {
      if n > MAX_ITEMS {
        t := LongArray(n, w);
      } else {
        var before, inner := PanickedItems(data, at, n, []);
        t := InArray(n, w, before, inner);
        AtSplit(data, pos, Head(4, n, w), EncodeItems(before) + Begin(inner));
      }
    } else {
      var pairs, entry := PanickedEntries(data, at, n, map[]);
      t := InMap(n, w, pairs, entry);
      AtSplit(data, pos, Head(5, n, w), EncodeEntries(pairs) + BeginEntry(entry));
    }
  }

  lemma {:induction false} PanickedItems(data: Bytes, at: nat, n: nat, sofar: seq<Value>)
    returns (before: seq<Item>, inner: Trouble)
    requires at <= |data| && ParseItems(data, at, n, sofar) == Panic
    ensures |before| < n && (forall i :: i in before ==> WellFormed(i) && HashableKeys(i)) && Troubling(inner)
    ensures At(data, at, EncodeItems(before) + Begin(inner))
    decreases |data| - at, 3
  {
    hide Parse, Encode, Meaning, WellFormed, HashableKeys, Begin, Troubling;
    if Parse(data, at) == Panic {
      inner := PanicIsTrouble(data, at);
      before := [];
      assert EncodeItems([]) + Begin(inner) == Begin(inner);
    } else {
      var read := Parse(data, at);
      var first := ReadIsEncoding(data, at);
      var rest;
      rest, inner := PanickedItems(data, read.next, n - 1, sofar + [read.value]);
      hide At;
      before := [first] + rest;
      assert before[1..] == rest;
      AtSplit(data, at, Encode(first), EncodeItems(rest) + Begin(inner));
      Associative(Encode(first), EncodeItems(rest), Begin(inner));
    }
  }

  lemma BadEntryAt(data: Bytes, at: nat, k: Item, v: Item)
    requires EntryTroubling(UnhashableKey(k, v))
    requires At(data, at, Encode(k)) && At(data, at + |Encode(k)|, Encode(v))
    ensures At(data, at, EncodeEntries([]) + BeginEntry(UnhashableKey(k, v)))
  {
    hide At, Encode;
    AtSplit(data, at, Encode(k), Encode(v));
    assert EncodeEntries([]) + BeginEntry(UnhashableKey(k, v)) == BeginEntry(UnhashableKey(k, v));
  }

  lemma FirstEntryAt(data: Bytes, at: nat, e: Entry, rest: seq<Entry>, entry: EntryTrouble)
    requires EntryWellFormed(e) && (forall r :: r in rest ==> EntryWellFormed(r)) && EntryTroubling(entry)
    requires At(data, at, Encode(e.key)) && At(data, at + |Encode(e.key)|, Encode(e.value))
    requires At(data, at + |Encode(e.key)| + |Encode(e.value)|, EncodeEntries(rest) + BeginEntry(entry))
    ensures At(data, at, EncodeEntries([e] + rest) + BeginEntry(entry))
  {
    hide At, Encode, BeginEntry;
    AtSplit(data, at, Encode(e.key), Encode(e.value));
    assert ([e] + rest)[1..] == rest;
    AtSplit(data, at, EncodeEntry(e), EncodeEntries(rest) + BeginEntry(entry));
    Associative(EncodeEntry(e), EncodeEntries(rest), BeginEntry(entry));
  }

  lemma {:induction false} PanickedEntries(data: Bytes, at: nat, n: nat, sofar: map<Value, Value>)
    returns (pairs: seq<Entry>, entry: EntryTrouble)
    requires at <= |data| && ParseEntries(data, at, n, sofar) == Panic
    ensures |pairs| < n && (forall e :: e in pairs ==> EntryWellFormed(e) && EntryHashable(e)) && EntryTroubling(entry)
    ensures At(data, at, EncodeEntries(pairs) + BeginEntry(entry))
    decreases |data| - at, 3
  {
    hide Parse, Encode, Meaning, WellFormed, HashableKeys, Hashable, Begin, Troubling;
    var key := Parse(data, at);
    if key == Panic {
      var inner := PanicIsTrouble(data, at);
      pairs, entry := [], InKey(inner);
      assert EncodeEntries([]) + BeginEntry(entry) == Begin(inner);
    } else {
      var k := ReadIsEncoding(data, at);
      var value := Parse(data, key.next);
      if value == Panic {
        var inner := PanicIsTrouble(data, key.next);
        hide At;
        pairs, entry := [], InValue(k, inner);
        AtSplit(data, at, Encode(k), Begin(inner));
        assert EncodeEntries([]) + BeginEntry(entry) == BeginEntry(entry);
      } else {
        var v := ReadIsEncoding(data, key.next);
        hide At, EncodeEntries, BeginEntry;
        if !Hashable(key.value) {
          pairs, entry := [], UnhashableKey(k, v);
          BadEntryAt(data, at, k, v);
        } else {
          var first := Entry(k, v);
          var rest;
          rest, entry := PanickedEntries(data, value.next, n - 1, With(sofar, first));
          pairs := [first] + rest;
          FirstEntryAt(data, at, first, rest, entry);
        }
      }
    }
  }

  /**
   * A read panics exactly if the data leads, over encoded items, to the head of an array too
   * long to allocate, or to a map entry whose key Go cannot hash.
   */
  lemma PanicsIff(data: Bytes, pos: nat)
    requires pos <= |data|
    ensures Parse(data, pos) == Panic <==> exists t :: Troubling(t) && At(data, pos, Begin(t))
  {
    hide Parse, At, Begin, Troubling;
    if Parse(data, pos) == Panic {
      var t := PanicIsTrouble(data, pos);
    }
    if t :| Troubling(t) && At(data, pos, Begin(t)) {
      TroublePanics(data, pos, t);
    }
  }

  // ------------------------------------------------------------ what this means for callers

  /** parseCBORExact: a value that is not followed by anything. */
  function ParseExact(data: Bytes): Outcome {
    var r := Parse(data, 0);
    if r.Parsed? && r.next != |data| then Malformed else r
  }

  /** An encoded item followed by anything is read back, and the reader stops where it ends. */
  lemma EncodedIsRead(item: Item, rest: Bytes)
    requires WellFormed(item)
    ensures HashableKeys(item) ==> Parse(Encode(item) + rest, 0) == Parsed(Meaning(item), |Encode(item)|)
    ensures !HashableKeys(item) ==> Parse(Encode(item) + rest, 0) == Panic
    ensures HashableKeys(item) ==> (ParseExact(Encode(item) + rest).Parsed? <==> rest == [])
  {
    hide Parse, Encode;
    var data := Encode(item) + rest;
    assert At(data, 0, Encode(item));
    if HashableKeys(item) { RoundTrip(data, 0, item); } else { UnhashablePanics(data, 0, item); }
  }

  ghost predicate IsEncodingOf(data: Bytes, value: Value) {
    exists item :: WellFormed(item) && HashableKeys(item) && Encode(item) == data && Meaning(item) == value
  }

  /** The exact reader accepts encodings of a value, and nothing else. */
  lemma ExactIffEncoding(data: Bytes, value: Value)
    ensures ParseExact(data) == Parsed(value, |data|) <==> IsEncodingOf(data, value)
  {
    hide Parse, Encode, Meaning, WellFormed, HashableKeys;
    if ParseExact(data) == Parsed(value, |data|) {
      var item := ReadIsEncoding(data, 0);
      assert data[0..|data|] == data;
    }
    if IsEncodingOf(data, value) {
      var item :| WellFormed(item) && HashableKeys(item) && Encode(item) == data && Meaning(item) == value;
      assert data[0..|data|] == data;
      RoundTrip(data, 0, item);
    }
  }

  /** No encoding is the beginning of another one. */
  lemma EncodingsArePrefixFree(a: Item, b: Item, rest: Bytes)
    requires WellFormed(a) && WellFormed(b) && HashableKeys(a) && Encode(a) + rest == Encode(b)
    ensures rest == [] && Meaning(a) == Meaning(b) && HashableKeys(b)
  {
    hide Parse, Encode, Meaning, WellFormed, HashableKeys;
    EncodedIsRead(a, rest);
    EncodedIsRead(b, []);
    assert Encode(b) + [] == Encode(b);
  }

  /** Integers are read as what they are exactly within the int64 range; beyond it they wrap. */
  lemma IntegersExactIff(n: nat, w: Width)
    requires Fits(n, w)
    ensures Meaning(Unsigned(n, w)) == Int(n) <==> n < 9223372036854775808
    ensures Meaning(Negative(n, w)) == Int(-1 - n) <==> n < 9223372036854775808
  {
    assert n < TWO_64 by { if w == Eight { } else { } }
  }

  // ------------------------------------------------------------ keys and values, by kind of item

  /** All map keys, at every depth, are integers, text or simple values. */
  predicate PlainKeys(item: Item) {
    match item
    case ArrayItem(items, _) => forall i :: i in items ==> PlainKeys(i)
    case MapItem(entries, _) => forall e :: e in entries ==> PlainEntry(e)
    case _ => true
  }

  predicate PlainEntry(e: Entry) {
    && PlainKeys(e.key) && PlainKeys(e.value)
    && match e.key
       case Unsigned(_, _) => true
       case Negative(_, _) => true
       case TextItem(_, _) => true
       case False => true
       case True => true
       case NullItem => true
       case Undefined => true
       case ByteStringItem(_, _) => false
       case ArrayItem(_, _) => false
       case MapItem(_, _) => false
  }

  lemma {:induction false} KeysByKind(item: Item)
    ensures HashableKeys(item) <==> PlainKeys(item)
  {
    match item
    case ArrayItem(items, _) =>
      forall i | i in items ensures HashableKeys(i) <==> PlainKeys(i) { KeysByKind(i); }
    case MapItem(entries, _) =>
      forall e | e in entries ensures EntryHashable(e) <==> PlainEntry(e) {
        KeysByKind(e.key);
        KeysByKind(e.value);
      }
    case _ =>
  }

  /** Well-formed data reads as its meaning if all keys are plain, and panics at a byte-string, array or map key. */
  lemma ReadsIffPlainKeys(data: Bytes, pos: nat, item: Item)
    requires WellFormed(item) && At(data, pos, Encode(item))
    ensures Parse(data, pos) == if PlainKeys(item) then Parsed(Meaning(item), pos + |Encode(item)|) else Panic
  {
    hide Parse, At, Encode, Meaning, WellFormed, HashableKeys, PlainKeys;
    KeysByKind(item);
    if PlainKeys(item) {
      RoundTrip(data, pos, item);
    } else {
      UnhashablePanics(data, pos, item);
    }
  }

  /** An announced array with nothing behind its head: too long for a slice, empty, or cut short. */
  lemma AnnouncedArray(n: nat, w: Width)
    requires Fits(n, w)
    ensures Parse(Head(4, n, w), 0) ==
      if n > 17592186044416 then Panic else if n == 0 then Parsed(Array([]), 1 + Size(w)) else Malformed
  {
    hide Parse, Head;
    var data := Head(4, n, w);
    assert At(data, 0, data);
    ParseHead(data, 0, 4, n, w);
    NothingToRead(data);
    assert n > 0 ==> ParseItems(data, |data|, n, []) == Malformed;
  }

  lemma NothingToRead(data: Bytes)
    ensures Parse(data, |data|) == Malformed
  {
  }

  /** Encodings listed in appendix A of RFC 8949: of integers and strings, and of an array and a map. */
  lemma KnownEncodings()
    ensures Encode(Unsigned(1000, Two)) == [0x19, 0x03, 0xE8]
    ensures Encode(Negative(99, One)) == [0x38, 0x63]
    ensures Encode(ByteStringItem([1, 2, 3, 4], Direct)) == [0x44, 1, 2, 3, 4]
    ensures Encode(TextItem([0x61], Direct)) == [0x61, 0x61]
  {
    assert ToBigEndian(3, 1) == [3] && ToBigEndian(1000, 2) == ToBigEndian(3, 1) + [0xE8];
  }

  lemma KnownContainers()
    ensures Encode(ArrayItem([Unsigned(1, Direct), True], Direct)) == [0x82, 0x01, 0xF5]
    ensures Encode(MapItem([Entry(TextItem([0x61], Direct), Unsigned(1, Direct))], Direct)) == [0xA1, 0x61, 0x61, 0x01]
  {
    var one, text := Unsigned(1, Direct), TextItem([0x61], Direct);
    assert [one, True][1..] == [True] && [True][1..] == [];
    assert EncodeItems([]) == [] && EncodeItems([True]) == [0xF5];
    assert Encode(one) == [0x01];
    assert EncodeItems([one, True]) == [0x01, 0xF5];
    var e := Entry(text, one);
    assert [e][1..] == [] && EncodeEntries([]) == [];
    assert EncodeEntries([e]) == EncodeEntry(e) == [0x61, 0x61, 0x01];
  }

  lemma {:induction false} ItemsMean(items: seq<Item>)
    ensures |MeaningItems(items)| == |items|
    ensures forall i :: 0 <= i < |items| ==> MeaningItems(items)[i] == Meaning(items[i])
  {
    hide Meaning;
    if items != [] {
      ItemsMean(items[1..]);
    }
  }

  predicate LastWith(entries: seq<Entry>, i: int, key: Value) {
    && 0 <= i < |entries| && Meaning(entries[i].key) == key
    && forall j :: i < j < |entries| ==> Meaning(entries[j].key) != key
  }

  /** A map holds, under each key of its entries, the value of the last entry with that key. */
  lemma {:induction false} EntriesMean(entries: seq<Entry>, sofar: map<Value, Value>, key: Value)
    ensures var m := MeaningEntries(entries, sofar);
      && (key in m <==> key in sofar || exists i :: 0 <= i < |entries| && Meaning(entries[i].key) == key)
      && (forall i :: LastWith(entries, i, key) ==> key in m && m[key] == Meaning(entries[i].value))
      && ((forall j :: 0 <= j < |entries| ==> Meaning(entries[j].key) != key) && key in sofar ==>
            key in m && m[key] == sofar[key])
    decreases entries
  {
    hide Meaning;
    if entries != [] {
      var rest := entries[1..];
      EntriesMean(rest, With(sofar, entries[0]), key);
      assert forall j :: 0 < j < |entries| ==> entries[j] == rest[j - 1];
      assert forall j :: 0 <= j < |rest| ==> rest[j] == entries[j + 1];
      assert forall i :: 0 < i ==> (LastWith(entries, i, key) <==> LastWith(rest, i - 1, key));
    }
  }

  /** What an item means, by its kind. */
  lemma MeansByKind(item: Item, key: Value)
    ensures match item
      case TextItem(b, _) => Meaning(item) == Text(b)
      case ByteStringItem(b, _) => Meaning(item) == ByteString(b)
      case ArrayItem(items, _) =>
        && Meaning(item).Array? && |Meaning(item).items| == |items|
        && forall i :: 0 <= i < |items| ==> Meaning(item).items[i] == Meaning(items[i])
      case MapItem(entries, _) =>
        && Meaning(item).Map?
        && (key in Meaning(item).entries <==> exists i :: 0 <= i < |entries| && Meaning(entries[i].key) == key)
        && forall i :: LastWith(entries, i, key) ==>
          key in Meaning(item).entries && Meaning(item).entries[key] == Meaning(entries[i].value)
      case False => Meaning(item) == Bool(false)
      case True => Meaning(item) == Bool(true)
      case _ => true
  {
    match item
    case ArrayItem(items, _) => ItemsMean(items);
    case MapItem(entries, _) => EntriesMean(entries, map[], key);
    case _ =>
  }

  // ------------------------------------------------------------ the reader

  datatype ReadError = MalformedData | Panicked

  class CborReader {
    const data: Bytes
    var pos: nat

    ghost predicate Valid()
      reads this
    {
      pos <= |data|
    }

    constructor (data: Bytes)
      ensures Valid() && this.data == data && pos == 0
    {
      this.data, pos := data, 0;
    }

    /** The result and position agree with an outcome. */
    ghost predicate Agrees(r: Result<Value, ReadError>, outcome: Outcome)
      reads this
    {
      match outcome
      case Parsed(value, next) => r == Ok(value) && pos == next
      case Malformed => r == Err(MalformedData)
      case Panic => r == Err(Panicked)
    }

    method ReadLength(additional: nat) returns (length: Option<nat>)
      requires Valid()
      modifies this
      ensures Valid() && length == LengthAt(data, old(pos), additional)
      ensures pos == if length.Some? then old(pos) + Following(additional) else old(pos)
    {
      if additional < 24 {
        return Some(additional);
      }
      if additional > 27 {
        return None;
      }
      var size := Following(additional);
      if pos + size > |data| {
        return None;
      }
      length := Some(BigEndian(data[pos..pos + size]));
      pos := pos + size;
    }

    method ReadBytes(length: nat) returns (out: Option<Bytes>)
      requires Valid()
      modifies this
      ensures Valid() && out.Some? == (length <= |data| - old(pos))
      ensures out.Some? ==> out.value == data[old(pos)..old(pos) + length] && pos == old(pos) + length
      ensures out.None? ==> pos == old(pos)
    {
      if length > |data| - pos {
        return None;
      }
      out := Some(data[pos..pos + length]);
      pos := pos + length;
    }

    /** Reads one item; the position only moves forward and stays within the data. */
    method Read() returns (r: Result<Value, ReadError>)
      requires Valid()
      modifies this
      ensures old(pos) <= pos <= |data| && (r.Ok? ==> old(pos) < pos)
      ensures Agrees(r, Parse(data, old(pos)))
      decreases |data| - pos, 0
    {
      hide ParseItems, ParseEntries, LengthAt;
      if pos >= |data| {
        return Err(MalformedData);
      }
      var initial := data[pos] as nat;
      pos := pos + 1;
      var major, additional := initial / 32, initial % 32;
      var length := ReadLength(additional);
      if length.None? {
        return Err(MalformedData);
      }
      match major {
        case 0 => return Ok(Int(ToInt64(length.value)));
        case 1 => return Ok(Int(-1 - ToInt64(length.value)));
        case 2 =>
          var raw := ReadBytes(length.value);
          return if raw.None? then Err(MalformedData) else Ok(ByteString(raw.value));
        case 3 =>
          var raw := ReadBytes(length.value);
          return if raw.None? then Err(MalformedData) else Ok(Text(raw.value));
        case 4 =>
          if length.value > MAX_ITEMS {
            return Err(Panicked);
          }
          r := ReadArray(length.value);
        case 5 => r := ReadMap(length.value);
        case 7 =>
          match additional {
            case 20 => return Ok(Bool(false));
            case 21 => return Ok(Bool(true));
            case 22 => return Ok(Null);
            case 23 => return Ok(Null);
            case _ => return Err(MalformedData);
          }
        case _ => return Err(MalformedData);
      }
    }

    method ReadArray(length: nat) returns (r: Result<Value, ReadError>)
      requires Valid()
      modifies this
      ensures old(pos) <= pos <= |data| && Agrees(r, ParseItems(data, old(pos), length, []))
      decreases |data| - pos, 1
    {
      hide Parse;
      var out: seq<Value> := [];
      for i := 0 to length
        invariant old(pos) <= pos <= |data|
        invariant ParseItems(data, old(pos), length, []) == ParseItems(data, pos, length - i, out)
      {
        var item := Read();
        if item.Err? {
          return item;
        }
        out := out + [item.value];
      }
      return Ok(Array(out));
    }

    method ReadMap(length: nat) returns (r: Result<Value, ReadError>)
      requires Valid()
      modifies this
      ensures old(pos) <= pos <= |data| && Agrees(r, ParseEntries(data, old(pos), length, map[]))
      decreases |data| - pos, 1
    {
      hide Parse;
      var out: map<Value, Value> := map[];
      for i := 0 to length
        invariant old(pos) <= pos <= |data|
        invariant ParseEntries(data, old(pos), length, map[]) == ParseEntries(data, pos, length - i, out)
      {
        var key := Read();
        if key.Err? {
          return key;
        }
        var value := Read();
        if value.Err? {
          return value;
        }
        if !Hashable(key.value) {
          return Err(Panicked);
        }
        out := out[key.value := value.value];
      }
      return Ok(Map(out));
    }

    /** Reads the one item a message consists of. */
    static method ParseCborExact(data: Bytes) returns (r: Result<Value, ReadError>)
      ensures r.Ok? <==> exists value :: IsEncodingOf(data, value)
      ensures r.Ok? ==> IsEncodingOf(data, r.value)
      ensures forall item :: WellFormed(item) && Encode(item) == data ==>
        r == if PlainKeys(item) then Ok(Meaning(item)) else Err(Panicked)
    {
      hide Parse, Encode, Meaning, WellFormed, IsEncodingOf, PlainKeys;
      var reader := new CborReader(data);
      r := reader.Read();
      forall item | WellFormed(item) && Encode(item) == data
        ensures Parse(data, 0) == if PlainKeys(item) then Parsed(Meaning(item), |data|) else Panic
      {
        assert data[0..|data|] == data;
        ReadsIffPlainKeys(data, 0, item);
      }
      if r.Ok? {
        if reader.pos != |data| {
          r := Err(MalformedData);
        } else {
          ExactIffEncoding(data, r.value);
        }
      }
      if r.Err? {
        forall value ensures !IsEncodingOf(data, value) { ExactIffEncoding(data, value); }
      }
    }
  }
}
