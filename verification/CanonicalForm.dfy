/**
 The text an audit entry's hash is taken over.

 Every field is written as its UTF-8 byte length, a colon and the field itself,
 so a reader of the bytes never looks for a separator inside a field. This
 module holds the printer, a decoder for what it prints, and the exact
 condition under which two entries print alike.
 */
module CanonicalForm {
  import opened JsText
  import opened Options

  // ---- Entry content -------------------------------------------------------

  /** A string-valued JavaScript object: its keys in insertion order, and their values. */
  datatype Bag = Bag(keys: seq<Text>, values: map<Text, Text>)

  ghost predicate IsRecord(b: Bag) {
    (forall i, j | 0 <= i < j < |b.keys| :: b.keys[i] != b.keys[j]) &&
    (forall k :: k in b.keys <==> k in b.values)
  }

  type Metadata = b: Bag | IsRecord(b) witness Bag([], map[])

  /** The fields of an entry that its hash covers; `occurredAt` is in milliseconds. */
  datatype Content = Content(
    sequence: int,
    action: Text,
    actorId: Option<Text>,
    subjectId: Option<Text>,
    metadata: Metadata,
    occurredAt: int,
    previousHash: Text)

  /**
   The library functions the code calls: a digest of bytes, `Date.toISOString`
   and `JSON.stringify` of a metadata record. Nothing is assumed of them here.
   */
  datatype Platform = Platform(digest: Bytes -> Text, iso: int -> Text, json: Metadata -> Text)

  /** `toISOString` tells different instants apart. */
  ghost predicate FaithfulDates(p: Platform) {
    forall a, b :: Scalars(p.iso(a)) == Scalars(p.iso(b)) ==> a == b
  }

  // ---- Printing ------------------------------------------------------------

  const COLON: CodeUnit := 58
  const SEMICOLON: CodeUnit := 59
  const EQUALS: CodeUnit := 61
  const BAR: CodeUnit := 124
  const MINUS: CodeUnit := 45

  predicate IsDigit(u: CodeUnit) { 48 <= u < 58 }

  function Decimal(n: nat): (t: Text)
    ensures t != [] && forall i | 0 <= i < |t| :: IsDigit(t[i])
  {
    if n < 10 then [48 + n] else Decimal(n / 10) + [48 + n % 10]
  }

  function DecimalInt(n: int): Text {
    if n < 0 then [MINUS] + Decimal(-n) else Decimal(n)
  }

  function Framed(field: Text): Text {
    Decimal(|Utf8(field)|) + [COLON] + field
  }

  function Join(parts: seq<Text>, separator: CodeUnit): Text {
    if parts == [] then []
    else if |parts| == 1 then parts[0]
    else parts[0] + [separator] + Join(parts[1..], separator)
  }

  function InsertKey(k: Text, sorted: seq<Text>): seq<Text> {
    if sorted == [] || Less(k, sorted[0]) then [k] + sorted
    else [sorted[0]] + InsertKey(k, sorted[1..])
  }

  function SortKeys(keys: seq<Text>): seq<Text> {
    if keys == [] then [] else InsertKey(keys[0], SortKeys(keys[1..]))
  }

  function Segment(key: Text, value: Text): Text { Framed(key) + [EQUALS] + Framed(value) }

  function ValueAt(m: Metadata, key: Text): Text {
    if key in m.values then m.values[key] else []
  }

  function Segments(m: Metadata, keys: seq<Text>): (r: seq<Text>)
    ensures |r| == |keys|
  {
    seq(|keys|, i requires 0 <= i < |keys| => Segment(keys[i], ValueAt(m, keys[i])))
  }

  function MetadataForm(m: Metadata): Text {
    Join([Decimal(|m.keys|)] + Segments(m, SortKeys(m.keys)), SEMICOLON)
  }

  /** The getter `canonicalForm`, which pushes one segment per key. */
  method PrintMetadata(m: Metadata) returns (form: Text)
    ensures form == MetadataForm(m)
  {
    var keys := SortKeys(m.keys);
    var segments := [Decimal(|m.keys|)];
    for i := 0 to |keys|
      invariant segments == [Decimal(|m.keys|)] + Segments(m, keys)[..i]
    {
      segments := segments + [Segment(keys[i], ValueAt(m, keys[i]))];
    }
    assert Segments(m, keys)[..|keys|] == Segments(m, keys);
    form := Join(segments, SEMICOLON);
  }

  function PlainFields(p: Platform, c: Content): (r: seq<Text>)
    ensures |r| == 6
  {
    [DecimalInt(c.sequence), c.action, c.actorId.GetOr([]), c.subjectId.GetOr([]),
     p.iso(c.occurredAt), c.previousHash]
  }

  function Fields(p: Platform, c: Content): (r: seq<Text>)
    ensures |r| == 7
  {
    PlainFields(p, c) + [MetadataForm(c.metadata)]
  }

  function Frames(fields: seq<Text>): (r: seq<Text>)
    ensures |r| == |fields|
  {
    seq(|fields|, i requires 0 <= i < |fields| => Framed(fields[i]))
  }

  /** Version, field count, then the framed fields joined by bars. */
  const HEADER: Text := // "verixa-audit-v2 7 "
    [118, 101, 114, 105, 120, 97, 45, 97, 117, 100, 105, 116, 45, 118, 50, 32, 55, 32]

  function Canonicalize(p: Platform, c: Content): Text {
    HEADER + Join(Frames(Fields(p, c)), BAR)
  }

  /** What the digest is applied to. */
  function CanonicalBytes(p: Platform, c: Content): Bytes { Utf8(Canonicalize(p, c)) }

  /** The version tag, spelled out. */
  lemma HeaderIsVersioned()
    ensures |HEADER| == |"verixa-audit-v2 7 "|
    ensures forall i | 0 <= i < |HEADER| :: HEADER[i] == "verixa-audit-v2 7 "[i] as int
  {
  }

  // ---- Decoding ------------------------------------------------------------

  function ReadNat(sofar: nat, b: Bytes): (nat, Bytes)
    decreases b
  {
    if b != [] && IsDigit(b[0]) then ReadNat(sofar * 10 + (b[0] as int - 48), b[1..]) else (sofar, b)
  }

  function ReadFrame(b: Bytes): Option<(Bytes, Bytes)> {
    var (n, rest) := ReadNat(0, b);
    if rest != [] && rest[0] == COLON && n < |rest| then Some((rest[1..n + 1], rest[n + 1..])) else None
  }

  /** Reads `n` frames separated by bars, and nothing after them. */
  function ReadFields(n: nat, b: Bytes): Option<seq<Bytes>> {
    if n == 0 then if b == [] then Some([]) else None
    else
      match ReadFrame(b)
      case None => None
      case Some((field, rest)) =>
        if n == 1 then if rest == [] then Some([field]) else None
        else if rest == [] || rest[0] != BAR then None
        else
          match ReadFields(n - 1, rest[1..])
          case None => None
          case Some(fields) => Some([field] + fields)
  }

  function ReadPairs(n: nat, b: Bytes): Option<seq<(Bytes, Bytes)>> {
    if n == 0 then if b == [] then Some([]) else None
    else if b == [] || b[0] != SEMICOLON then None
    else
      match ReadFrame(b[1..])
      case None => None
      case Some((key, rest)) =>
        if rest == [] || rest[0] != EQUALS then None
        else
          match ReadFrame(rest[1..])
          case None => None
          case Some((value, tail)) =>
            match ReadPairs(n - 1, tail)
            case None => None
            case Some(pairs) => Some([(key, value)] + pairs)
  }

  /** The six plain fields, and the metadata pairs. */
  datatype Decoded = Decoded(fields: seq<Bytes>, pairs: seq<(Bytes, Bytes)>)

  function Decode(b: Bytes): Option<Decoded> {
    var header := Utf8(HEADER);
    if !(header <= b) then None
    else
      match ReadFields(7, b[|header|..])
      case None => None
      case Some(fields) =>
        if |fields| != 7 then None
        else
          var (n, rest) := ReadNat(0, fields[6]);
          match ReadPairs(n, rest)
          case None => None
          case Some(pairs) => Some(Decoded(fields[..6], pairs))
  }

  // ---- What the printer puts into the bytes --------------------------------

  function SortedPairs(m: Metadata): (r: seq<(Text, Text)>)
    ensures |r| == |SortKeys(m.keys)|
  {
    var keys := SortKeys(m.keys);
    seq(|keys|, i requires 0 <= i < |keys| => (keys[i], ValueAt(m, keys[i])))
  }

  function PairBytes(pairs: seq<(Text, Text)>): (r: seq<(Bytes, Bytes)>)
    ensures |r| == |pairs|
  {
    seq(|pairs|, i requires 0 <= i < |pairs| => (Utf8(pairs[i].0), Utf8(pairs[i].1)))
  }

  function FieldBytes(fields: seq<Text>): (r: seq<Bytes>)
    ensures |r| == |fields|
  {
    seq(|fields|, i requires 0 <= i < |fields| => Utf8(fields[i]))
  }

  function Image(p: Platform, c: Content): Decoded {
    Decoded(FieldBytes(PlainFields(p, c)), PairBytes(SortedPairs(c.metadata)))
  }

  // The same layout, written directly on bytes.

  function DecimalBytes(n: nat): Bytes {
    var t := Decimal(n);
    seq(|t|, i requires 0 <= i < |t| => assert IsDigit(t[i]); t[i])
  }

  function FrameBytes(field: Bytes): Bytes { DecimalBytes(|field|) + [COLON] + field }

  function JoinBytes(fields: seq<Bytes>): Bytes {
    if fields == [] then []
    else if |fields| == 1 then FrameBytes(fields[0])
    else FrameBytes(fields[0]) + [BAR] + JoinBytes(fields[1..])
  }

  function SegmentBytes(pairs: seq<(Bytes, Bytes)>): Bytes {
    if pairs == [] then []
    else [SEMICOLON] + FrameBytes(pairs[0].0) + [EQUALS] + FrameBytes(pairs[0].1) + SegmentBytes(pairs[1..])
  }

  function Layout(d: Decoded): Bytes {
    Utf8(HEADER) + JoinBytes(d.fields + [DecimalBytes(|d.pairs|) + SegmentBytes(d.pairs)])
  }

  // ---- Decoding undoes the layout ------------------------------------------

  lemma {:induction false} ReadNatOfDecimal(n: nat, rest: Bytes)
    ensures ReadNat(0, DecimalBytes(n) + rest) == ReadNat(n, rest)
  {
    if n < 10 {
      assert DecimalBytes(n) + rest == [48 + n] + rest;
    } else {
      var digit: Bytes := [48 + n % 10];
      var next := digit + rest;
      assert DecimalBytes(n) + rest == DecimalBytes(n / 10) + next;
      ReadNatOfDecimal(n / 10, next);
      assert next[0] == 48 + n % 10 && next[1..] == rest;
    }
  }

  lemma ReadFrameOfFrame(field: Bytes, rest: Bytes)
    ensures ReadFrame(FrameBytes(field) + rest) == Some((field, rest))
  {
    var tail: Bytes := [COLON] + field + rest;
    assert FrameBytes(field) + rest == DecimalBytes(|field|) + tail;
    ReadNatOfDecimal(|field|, tail);
    assert tail[1..|field| + 1] == field && tail[|field| + 1..] == rest;
  }

  lemma {:induction false} ReadFieldsOfJoin(fields: seq<Bytes>)
    ensures ReadFields(|fields|, JoinBytes(fields)) == Some(fields)
  {
    if |fields| == 1 {
      ReadFrameOfFrame(fields[0], []);
      assert FrameBytes(fields[0]) + [] == JoinBytes(fields);
      assert fields == [fields[0]];
    } else if |fields| > 1 {
      var rest: Bytes := [BAR] + JoinBytes(fields[1..]);
      assert JoinBytes(fields) == FrameBytes(fields[0]) + rest;
      ReadFrameOfFrame(fields[0], rest);
      assert rest[1..] == JoinBytes(fields[1..]);
      ReadFieldsOfJoin(fields[1..]);
      assert [fields[0]] + fields[1..] == fields;
    }
  }

  lemma {:induction false} ReadPairsOfSegments(pairs: seq<(Bytes, Bytes)>)
    ensures ReadPairs(|pairs|, SegmentBytes(pairs)) == Some(pairs)
  {
    hide FrameBytes, ReadFrame;
    if pairs != [] {
      var (key, value) := pairs[0];
      var tail := SegmentBytes(pairs[1..]);
      var rest: Bytes := [EQUALS] + FrameBytes(value) + tail;
      var b := SegmentBytes(pairs);
      assert b[1..] == FrameBytes(key) + rest;
      assert rest[1..] == FrameBytes(value) + tail;
      ReadFrameOfFrame(key, rest);
      ReadFrameOfFrame(value, tail);
      ReadPairsOfSegments(pairs[1..]);
      assert [pairs[0]] + pairs[1..] == pairs;
    }
  }

  lemma DecodeOfLayout(d: Decoded)
    requires |d.fields| == 6
    ensures Decode(Layout(d)) == Some(d)
  {
    var bag := DecimalBytes(|d.pairs|) + SegmentBytes(d.pairs);
    var fields := d.fields + [bag];
    var header := Utf8(HEADER);
    assert Layout(d)[|header|..] == JoinBytes(fields);
    ReadFieldsOfJoin(fields);
    ReadNatOfDecimal(|d.pairs|, SegmentBytes(d.pairs));
    ReadPairsOfSegments(d.pairs);
    assert fields[..6] == d.fields;
  }

  // ---- The printer produces the layout -------------------------------------

  lemma Utf8OfFrame(field: Text)
    ensures Utf8(Framed(field)) == FrameBytes(Utf8(field))
  {
    var prefix := Decimal(|Utf8(field)|) + [COLON];
    Utf8OfConcat(prefix, field);
    Utf8OfAscii(prefix);
    assert DecimalBytes(|Utf8(field)|) == Decimal(|Utf8(field)|);
  }

  /** Frames start with a digit, so no surrogate pair can form in front of one. */
  lemma {:induction false} Utf8OfJoin(fields: seq<Text>)
    ensures Utf8(Join(Frames(fields), BAR)) == JoinBytes(FieldBytes(fields))
  {
    if |fields| == 1 {
      Utf8OfFrame(fields[0]);
    } else if |fields| > 1 {
      assert Frames(fields)[1..] == Frames(fields[1..]);
      assert FieldBytes(fields)[1..] == FieldBytes(fields[1..]);
      var rest := Join(Frames(fields[1..]), BAR);
      Utf8OfJoin(fields[1..]);
      Utf8OfConcat([BAR], rest);
      Utf8OfAscii([BAR]);
      Utf8OfConcat(Framed(fields[0]), [BAR] + rest);
      Utf8OfFrame(fields[0]);
      assert Framed(fields[0]) + [BAR] + rest == Framed(fields[0]) + ([BAR] + rest);
    }
  }

  function SegmentTexts(pairs: seq<(Text, Text)>): (r: seq<Text>)
    ensures |r| == |pairs|
  {
    seq(|pairs|, i requires 0 <= i < |pairs| => Segment(pairs[i].0, pairs[i].1))
  }

  lemma Utf8OfSegment(key: Text, value: Text)
    ensures Utf8(Segment(key, value)) == FrameBytes(Utf8(key)) + [EQUALS] + FrameBytes(Utf8(value))
  {
    Utf8OfFrame(key);
    Utf8OfFrame(value);
    Utf8OfConcat(Framed(key) + [EQUALS], Framed(value));
    Utf8OfConcat(Framed(key), [EQUALS]);
    Utf8OfAscii([EQUALS]);
  }

  lemma {:induction false} Utf8OfSegments(head: Text, pairs: seq<(Text, Text)>)
    ensures Utf8(Join([head] + SegmentTexts(pairs), SEMICOLON)) == Utf8(head) + SegmentBytes(PairBytes(pairs))
    decreases pairs
  {
    hide Utf8, Segment;
    if pairs == [] {
      assert [head] + SegmentTexts(pairs) == [head];
    } else {
      var next := Segment(pairs[0].0, pairs[0].1);
      JoinSegmentsStep(head, pairs);
      Utf8AfterSemicolon(head, Join([next] + SegmentTexts(pairs[1..]), SEMICOLON));
      Utf8OfSegments(next, pairs[1..]);
      SegmentBytesStep(next, pairs);
    }
  }

  lemma JoinSegmentsStep(head: Text, pairs: seq<(Text, Text)>)
    requires pairs != []
    ensures Join([head] + SegmentTexts(pairs), SEMICOLON) == head + [SEMICOLON] +
      Join([Segment(pairs[0].0, pairs[0].1)] + SegmentTexts(pairs[1..]), SEMICOLON)
  {
    var parts := [head] + SegmentTexts(pairs);
    assert parts[1..] == [Segment(pairs[0].0, pairs[0].1)] + SegmentTexts(pairs[1..]);
  }

  lemma SegmentBytesStep(next: Text, pairs: seq<(Text, Text)>)
    requires pairs != [] && next == Segment(pairs[0].0, pairs[0].1)
    ensures SegmentBytes(PairBytes(pairs)) == [SEMICOLON] + (Utf8(next) + SegmentBytes(PairBytes(pairs[1..])))
  {
    hide Utf8, Segment, FrameBytes;
    Utf8OfSegment(pairs[0].0, pairs[0].1);
    var after := PairBytes(pairs[1..]);
    assert PairBytes(pairs) == [(Utf8(pairs[0].0), Utf8(pairs[0].1))] + after;
  }

  lemma Utf8AfterSemicolon(head: Text, rest: Text)
    ensures Utf8(head + [SEMICOLON] + rest) == Utf8(head) + [SEMICOLON] + Utf8(rest)
  {
    Utf8OfConcat(head + [SEMICOLON], rest);
    Utf8OfConcat(head, [SEMICOLON]);
    Utf8OfAscii([SEMICOLON]);
  }

  lemma Utf8OfMetadata(m: Metadata)
    ensures |SortKeys(m.keys)| == |m.keys|
    ensures Utf8(MetadataForm(m)) ==
      DecimalBytes(|m.keys|) + SegmentBytes(PairBytes(SortedPairs(m)))
  {
    SortKeysProperties(m.keys);
    var head := Decimal(|m.keys|);
    assert SegmentTexts(SortedPairs(m)) == Segments(m, SortKeys(m.keys));
    Utf8OfSegments(head, SortedPairs(m));
    Utf8OfAscii(head);
    assert DecimalBytes(|m.keys|) == head;
  }

  lemma CanonicalBytesLayout(p: Platform, c: Content)
    ensures CanonicalBytes(p, c) == Layout(Image(p, c))
  {
    var fields := Fields(p, c);
    var joined := Join(Frames(fields), BAR);
    Utf8OfConcat(HEADER, joined);
    Utf8OfJoin(fields);
    Utf8OfMetadata(c.metadata);
    assert FieldBytes(fields) == FieldBytes(PlainFields(p, c)) + [Utf8(fields[6])];
  }

  /**
   The decoder recovers the six plain fields and every metadata pair from any
   printed form, whatever separators, digits or newlines the values contain.
   */
  lemma DecodeRecovers(p: Platform, c: Content)
    ensures Decode(CanonicalBytes(p, c)) == Some(Image(p, c))
  {
    CanonicalBytesLayout(p, c);
    DecodeOfLayout(Image(p, c));
  }

  // ---- Sorting -------------------------------------------------------------

  ghost predicate Ascending(s: seq<Text>) { forall i, j | 0 <= i < j < |s| :: Less(s[i], s[j]) }

  ghost predicate Distinct(s: seq<Text>) { forall i, j | 0 <= i < j < |s| :: s[i] != s[j] }

  lemma {:induction false} InsertKeyElements(k: Text, s: seq<Text>)
    ensures multiset(InsertKey(k, s)) == multiset(s) + multiset{k}
  {
    if s != [] && !Less(k, s[0]) {
      InsertKeyElements(k, s[1..]);
      assert s == [s[0]] + s[1..];
    }
  }

  lemma {:induction false} InsertKeyAscends(k: Text, s: seq<Text>)
    requires Ascending(s) && k !in s
    ensures Ascending(InsertKey(k, s))
  {
    if s == [] {
    } else if Less(k, s[0]) {
      forall j | 0 <= j < |s| ensures Less(k, s[j]) {
        if j > 0 { LessTransitive(k, s[0], s[j]); }
      }
    } else {
      var r := InsertKey(k, s[1..]);
      InsertKeyAscends(k, s[1..]);
      InsertKeyElements(k, s[1..]);
      LessTotal(s[0], k);
      forall j | 0 <= j < |r| ensures Less(s[0], r[j]) {
        assert r[j] in multiset(r);
        assert r[j] == k || r[j] in s[1..];
      }
    }
  }

  lemma {:induction false} SortKeysProperties(keys: seq<Text>)
    ensures multiset(SortKeys(keys)) == multiset(keys) && |SortKeys(keys)| == |keys|
    ensures forall k :: k in SortKeys(keys) <==> k in keys
    ensures Distinct(keys) ==> Ascending(SortKeys(keys))
  {
    if keys != [] {
      var tail := SortKeys(keys[1..]);
      SortKeysProperties(keys[1..]);
      InsertKeyElements(keys[0], tail);
      SameElements(tail, keys[1..]);
      if Distinct(keys) {
        InsertKeyAscends(keys[0], tail);
      }
      assert keys == [keys[0]] + keys[1..];
    }
    SameElements(SortKeys(keys), keys);
  }

  lemma SameElements(a: seq<Text>, b: seq<Text>)
    requires multiset(a) == multiset(b)
    ensures |a| == |b| && forall k :: k in a <==> k in b
  {
    assert |multiset(a)| == |a| && |multiset(b)| == |b|;
    assert forall k :: k in a <==> k in multiset(a);
    assert forall k :: k in b <==> k in multiset(b);
  }

  /** An ascending sequence is determined by its elements. */
  lemma {:induction false} AscendingUnique(a: seq<Text>, b: seq<Text>)
    requires Ascending(a) && Ascending(b)
    requires forall k :: k in a <==> k in b
    ensures a == b
  {
    assert b != [] ==> b[0] in b;
    if a != [] {
      assert a[0] in b && b != [] && b[0] in a;
      LessTotal(a[0], b[0]);
      assert a[0] == b[0];
      assert a == [a[0]] + a[1..] && b == [b[0]] + b[1..];
      forall k ensures k in a[1..] <==> k in b[1..] {
        LessTotal(k, k);
        assert k in a[1..] ==> Less(a[0], k);
        assert k in b[1..] ==> Less(b[0], k);
        assert k in a <==> k == a[0] || k in a[1..];
        assert k in b <==> k == b[0] || k in b[1..];
      }
      AscendingUnique(a[1..], b[1..]);
    }
  }

  /** The sorted pairs depend on the record's contents only ... */
  lemma SortedPairsOfEqual(m: Metadata, n: Metadata)
    requires m.values == n.values
    ensures SortedPairs(m) == SortedPairs(n)
  {
    SortKeysProperties(m.keys);
    SortKeysProperties(n.keys);
    AscendingUnique(SortKeys(m.keys), SortKeys(n.keys));
  }

  lemma SortedPairsHold(m: Metadata, n: Metadata, k: Text)
    requires SortedPairs(m) == SortedPairs(n) && k in m.values
    ensures k in n.values && m.values[k] == n.values[k]
  {
    SortKeysProperties(m.keys);
    SortKeysProperties(n.keys);
    var a, b := SortKeys(m.keys), SortKeys(n.keys);
    var i :| 0 <= i < |a| && a[i] == k;
    assert SortedPairs(m)[i] == (k, m.values[k]);
    assert SortedPairs(n)[i] == (b[i], ValueAt(n, b[i]));
    assert b[i] in n.keys;
  }

  /** ... and determine them. */
  lemma SortedPairsInjective(m: Metadata, n: Metadata)
    requires SortedPairs(m) == SortedPairs(n)
    ensures m.values == n.values
  {
    forall k | k in m.values ensures k in n.values && m.values[k] == n.values[k] {
      SortedPairsHold(m, n, k);
    }
    forall k | k in n.values ensures k in m.values {
      SortedPairsHold(n, m, k);
    }
    assert m.values.Keys == n.values.Keys;
  }

  /**
   What a reader of the hash input finds, field by field: the number, the action, the
   two ids, the instant, the predecessor's hash, and every metadata value with its key.
   */
  lemma {:induction false} DecodedFields(p: Platform, c: Content)
    ensures var d := Decode(CanonicalBytes(p, c));
      && d.Some?
      && d.value.fields == [Utf8(DecimalInt(c.sequence)), Utf8(c.action), Utf8(c.actorId.GetOr([])),
                            Utf8(c.subjectId.GetOr([])), Utf8(p.iso(c.occurredAt)), Utf8(c.previousHash)]
      && |d.value.pairs| == |c.metadata.keys|
      && forall k | k in c.metadata.values :: (Utf8(k), Utf8(c.metadata.values[k])) in d.value.pairs
  {
    hide CanonicalBytes, Decode, Utf8, SortKeys, DecimalInt;
    DecodeRecovers(p, c);
    SortKeysProperties(c.metadata.keys);
    var m := c.metadata;
    var keys, pairs := SortKeys(m.keys), SortedPairs(m);
    forall k | k in m.values ensures (Utf8(k), Utf8(m.values[k])) in PairBytes(pairs) {
      assert k in multiset(m.keys) && k in multiset(keys);
      var i :| 0 <= i < |keys| && keys[i] == k;
      assert PairBytes(pairs)[i] == (Utf8(k), Utf8(m.values[k]));
    }
  }

  // ---- Two entries print alike exactly when they hold the same record -------

  /** The pairs in the order they are printed in, which is that of the keys before they are read as scalar values. */
  function ScalarPairs(m: Metadata): (r: seq<(seq<Scalar>, seq<Scalar>)>)
    ensures |r| == |SortedPairs(m)|
  {
    var pairs := SortedPairs(m);
    seq(|pairs|, i requires 0 <= i < |pairs| => (Scalars(pairs[i].0), Scalars(pairs[i].1)))
  }

  /**
   Equal fields, reading every text as its scalar values and a missing id as an
   empty one. Metadata is compared pair by pair as printed: keys that differ only
   in unpaired surrogates may sort apart, and then the records differ.
   */
  ghost predicate SameRecord(c: Content, d: Content) {
    && c.sequence == d.sequence
    && Scalars(c.action) == Scalars(d.action)
    && Scalars(c.actorId.GetOr([])) == Scalars(d.actorId.GetOr([]))
    && Scalars(c.subjectId.GetOr([])) == Scalars(d.subjectId.GetOr([]))
    && c.occurredAt == d.occurredAt
    && Scalars(c.previousHash) == Scalars(d.previousHash)
    && ScalarPairs(c.metadata) == ScalarPairs(d.metadata)
  }

  ghost predicate WellFormedContent(c: Content) {
    && WellFormed(c.action)
    && WellFormed(c.actorId.GetOr([]))
    && WellFormed(c.subjectId.GetOr([]))
    && WellFormed(c.previousHash)
    && forall k | k in c.metadata.values :: WellFormed(k) && WellFormed(c.metadata.values[k])
  }

  /** Equal fields, but for a missing id against an empty one and the order of metadata keys. */
  ghost predicate EqualContent(c: Content, d: Content) {
    && c.sequence == d.sequence
    && c.action == d.action
    && c.actorId.GetOr([]) == d.actorId.GetOr([])
    && c.subjectId.GetOr([]) == d.subjectId.GetOr([])
    && c.occurredAt == d.occurredAt
    && c.previousHash == d.previousHash
    && c.metadata.values == d.metadata.values
  }

  lemma {:induction false} DecimalInjective(m: nat, n: nat)
    requires Decimal(m) == Decimal(n)
    ensures m == n
  {
    assert DecimalBytes(m) == DecimalBytes(n);
    ReadNatOfDecimal(m, []);
    ReadNatOfDecimal(n, []);
    assert DecimalBytes(m) + [] == DecimalBytes(n) + [];
  }

  lemma DecimalIntExact(m: int, n: int)
    ensures Utf8(DecimalInt(m)) == Utf8(DecimalInt(n)) <==> m == n
  {
    Utf8OfAscii(DecimalInt(m));
    Utf8OfAscii(DecimalInt(n));
    assert m < 0 <==> DecimalInt(m)[0] == MINUS;
    assert n < 0 <==> DecimalInt(n)[0] == MINUS;
    if DecimalInt(m) == DecimalInt(n) {
      if m < 0 {
        assert DecimalInt(m)[1..] == Decimal(-m) && DecimalInt(n)[1..] == Decimal(-n);
        DecimalInjective(-m, -n);
      } else {
        DecimalInjective(m, n);
      }
    }
  }

  lemma FieldBytesExact(f: seq<Text>, g: seq<Text>)
    requires |f| == |g|
    ensures FieldBytes(f) == FieldBytes(g) <==> forall i | 0 <= i < |f| :: Scalars(f[i]) == Scalars(g[i])
  {
    forall i | 0 <= i < |f| ensures FieldBytes(f)[i] == FieldBytes(g)[i] <==> Scalars(f[i]) == Scalars(g[i]) {
      Utf8Exact(f[i], g[i]);
    }
  }

  lemma PairBytesExact(m: Metadata, n: Metadata)
    ensures PairBytes(SortedPairs(m)) == PairBytes(SortedPairs(n)) <==> ScalarPairs(m) == ScalarPairs(n)
  {
    var a, b := SortedPairs(m), SortedPairs(n);
    forall i | 0 <= i < |a| && i < |b|
      ensures PairBytes(a)[i] == PairBytes(b)[i] <==> ScalarPairs(m)[i] == ScalarPairs(n)[i]
    {
      Utf8Exact(a[i].0, b[i].0);
      Utf8Exact(a[i].1, b[i].1);
    }
  }

  lemma ImageExact(p: Platform, c: Content, d: Content)
    requires FaithfulDates(p)
    ensures Image(p, c) == Image(p, d) <==> SameRecord(c, d)
  {
    var f, g := PlainFields(p, c), PlainFields(p, d);
    FieldBytesExact(f, g);
    PairBytesExact(c.metadata, d.metadata);
    DecimalIntExact(c.sequence, d.sequence);
    Utf8Exact(f[0], g[0]);
    assert (forall i | 0 <= i < 6 :: Scalars(f[i]) == Scalars(g[i])) <==>
      && Scalars(f[0]) == Scalars(g[0]) && Scalars(f[1]) == Scalars(g[1]) && Scalars(f[2]) == Scalars(g[2])
      && Scalars(f[3]) == Scalars(g[3]) && Scalars(f[4]) == Scalars(g[4]) && Scalars(f[5]) == Scalars(g[5]);
  }

  lemma ImageDecides(p: Platform, c: Content, d: Content)
    ensures CanonicalBytes(p, c) == CanonicalBytes(p, d) <==> Image(p, c) == Image(p, d)
  {
    DecodeRecovers(p, c);
    DecodeRecovers(p, d);
    CanonicalBytesLayout(p, c);
    CanonicalBytesLayout(p, d);
  }

  /** The hash input tells two entries apart exactly when they hold different records. */
  lemma CanonicalExact(p: Platform, c: Content, d: Content)
    requires FaithfulDates(p)
    ensures CanonicalBytes(p, c) == CanonicalBytes(p, d) <==> SameRecord(c, d)
  {
    ImageDecides(p, c, d);
    ImageExact(p, c, d);
  }

  lemma ScalarPairsWellFormed(c: Content, d: Content)
    requires WellFormedContent(c) && WellFormedContent(d)
    ensures ScalarPairs(c.metadata) == ScalarPairs(d.metadata) <==> c.metadata.values == d.metadata.values
  {
    var m, n := c.metadata, d.metadata;
    SortKeysProperties(m.keys);
    SortKeysProperties(n.keys);
    if m.values == n.values {
      SortedPairsOfEqual(m, n);
    }
    if SortedPairs(m) == SortedPairs(n) {
      SortedPairsInjective(m, n);
    }
    var a, b := SortedPairs(m), SortedPairs(n);
    forall i | 0 <= i < |a| && i < |b|
      ensures ScalarPairs(m)[i] == ScalarPairs(n)[i] <==> a[i] == b[i]
    {
      assert SortKeys(m.keys)[i] in m.keys && SortKeys(n.keys)[i] in n.keys;
      Utf8Exact(a[i].0, b[i].0);
      Utf8Exact(a[i].1, b[i].1);
    }
  }

  /**
   For well-formed texts the hash input determines the whole content, and it
   does not depend on the order in which metadata keys were inserted.
   */
  lemma CanonicalInjective(p: Platform, c: Content, d: Content)
    requires FaithfulDates(p) && WellFormedContent(c) && WellFormedContent(d)
    ensures CanonicalBytes(p, c) == CanonicalBytes(p, d) <==> EqualContent(c, d)
  {
    CanonicalExact(p, c, d);
    Utf8Exact(c.action, d.action);
    Utf8Exact(c.actorId.GetOr([]), d.actorId.GetOr([]));
    Utf8Exact(c.subjectId.GetOr([]), d.subjectId.GetOr([]));
    Utf8Exact(c.previousHash, d.previousHash);
    ScalarPairsWellFormed(c, d);
  }

  /** Without well-formedness it does not: an unpaired surrogate prints as U+FFFD, whichever it is. */
  lemma UnpairedSurrogatesCollide(p: Platform, c: Content)
    ensures var a, b := c.(actorId := Some([0xD800])), c.(actorId := Some([0xDFFF]));
      !EqualContent(a, b) && CanonicalBytes(p, a) == CanonicalBytes(p, b)
  {
    var a, b := c.(actorId := Some([0xD800])), c.(actorId := Some([0xDFFF]));
    var x: Text, y: Text := [0xD800], [0xDFFF];
    assert Scalars(x) == Scalars(y) == [REPLACEMENT];
    FieldBytesExact(PlainFields(p, a), PlainFields(p, b));
    ImageDecides(p, a, b);
    assert [a.actorId.value[0]] != [b.actorId.value[0]];
  }
}
