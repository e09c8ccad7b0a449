/** Bounds on a metadata record, and the escapes that make text safe for line-oriented sinks. */
module AuditMetadata {
  import opened JsText
  import opened Options
  import opened CanonicalForm

  const MAX_METADATA_ENTRIES := 32
  const MAX_METADATA_KEY_LENGTH := 64
  const MAX_METADATA_VALUE_LENGTH := 1024

  datatype Rejection = TooManyFields | EmptyKey | KeyTooLong | NonStringValue | ValueTooLong

  /** What a caller supplies: a record whose values need not be strings. A value that is none is None here. */
  datatype Raw = Raw(keys: seq<Text>, values: map<Text, Option<Text>>)

  ghost predicate IsInput(b: Raw) {
    (forall i, j | 0 <= i < j < |b.keys| :: b.keys[i] != b.keys[j]) &&
    (forall k :: k in b.keys <==> k in b.values)
  }

  type Input = b: Raw | IsInput(b) witness Raw([], map[])

  function KeyProblem(m: Input, key: Text): Option<Rejection>
    requires key in m.values
  {
    if key == [] then Some(EmptyKey)
    else if |key| > MAX_METADATA_KEY_LENGTH then Some(KeyTooLong)
    else if m.values[key] == None then Some(NonStringValue)
    else if |m.values[key].value| > MAX_METADATA_VALUE_LENGTH then Some(ValueTooLong)
    else None
  }

  function FirstProblem(m: Input, keys: seq<Text>): (r: Option<Rejection>)
    requires forall i | 0 <= i < |keys| :: keys[i] in m.values
    ensures r == None <==> forall i | 0 <= i < |keys| :: KeyProblem(m, keys[i]) == None
  {
    if keys == [] then None
    else if KeyProblem(m, keys[0]) != None then KeyProblem(m, keys[0])
    else
      assert keys == [keys[0]] + keys[1..];
      FirstProblem(m, keys[1..])
  }

  datatype Created = Accepted(values: Metadata) | Refused(reason: Rejection)

  /** The supplied record, as a record of strings. */
  function Strings(m: Input): Metadata { Bag(m.keys, map k | k in m.values :: m.values[k].GetOr([])) }

  function Create(m: Input): Created {
    if |m.keys| > MAX_METADATA_ENTRIES then Refused(TooManyFields)
    else
      match FirstProblem(m, m.keys)
      case None => Accepted(Strings(m))
      case Some(r) => Refused(r)
  }

  /** `values` holds the first `n` values of the record, all of them strings. */
  ghost predicate Copied(m: Input, values: map<Text, Text>, n: nat)
    requires n <= |m.keys|
  {
    (forall k :: k in values <==> k in m.keys[..n]) &&
    (forall k | k in values :: k in m.values && m.values[k] == Some(values[k]))
  }

  lemma CopiedStep(m: Input, values: map<Text, Text>, n: nat)
    requires n < |m.keys| && Copied(m, values, n) && m.values[m.keys[n]].Some?
    ensures Copied(m, values[m.keys[n] := m.values[m.keys[n]].value], n + 1)
  {
    assert m.keys[..n + 1] == m.keys[..n] + [m.keys[n]];
  }

  lemma CopiedAll(m: Input, values: map<Text, Text>)
    requires Copied(m, values, |m.keys|)
    ensures Bag(m.keys, values) == Strings(m)
  {
    assert m.keys[..|m.keys|] == m.keys;
  }

  lemma {:induction false} FirstProblemStep(m: Input, i: nat)
    requires i < |m.keys|
    ensures FirstProblem(m, m.keys[i..]) ==
      if KeyProblem(m, m.keys[i]) != None then KeyProblem(m, m.keys[i]) else FirstProblem(m, m.keys[i + 1..])
  {
    hide KeyProblem;
    assert m.keys[i..][1..] == m.keys[i + 1..];
  }

  /** `AuditMetadata.create`, which copies the record while it checks it. */
  method Validate(m: Input) returns (r: Created)
    ensures r == Create(m)
  {
    hide Copied, Strings, FirstProblem;
    if |m.keys| > MAX_METADATA_ENTRIES {
      return Refused(TooManyFields);
    }
    var values: map<Text, Text> := map[];
    NothingCopied(m);
    for i := 0 to |m.keys|
      invariant FirstProblem(m, m.keys) == FirstProblem(m, m.keys[i..])
      invariant Copied(m, values, i)
    {
      FirstProblemStep(m, i);
      var problem := KeyProblem(m, m.keys[i]);
      if problem != None {
        return Refused(problem.value);
      }
      CopiedStep(m, values, i);
      values := values[m.keys[i] := m.values[m.keys[i]].value];
    }
    CopiedAll(m, values);
    r := Accepted(Bag(m.keys, values));
  }

  lemma NothingCopied(m: Input)
    ensures Copied(m, map[], 0)
  {
  }

  function ReasonText(r: Rejection): Text {
    match r
    case TooManyFields => Ascii("too_many_fields")
    case EmptyKey => Ascii("empty_key")
    case KeyTooLong => Ascii("key_too_long")
    case NonStringValue => Ascii("non_string_value")
    case ValueTooLong => Ascii("value_too_long")
  }

  function Singleton(key: Text, value: Text): Metadata {
    var keys := [key];
    assert keys[0] == key;
    Bag(keys, map[key := value])
  }

  const MARKER: Text := Ascii("metadataRejected")
  const TOO_MANY_FIELDS: Text := Ascii("too_many_fields")

  function Rejected(r: Rejection): Metadata { Singleton(MARKER, ReasonText(r)) }

  /** The record a single-event writer stores: the one supplied, or a marker naming what was wrong with it. */
  function MetadataFor(m: Input): Metadata {
    match Create(m)
    case Accepted(values) => values
    case Refused(reason) => Rejected(reason)
  }

  /** A record of strings, as a caller supplies it. */
  function Supplied(m: Metadata): Input { Raw(m.keys, map k | k in m.values :: Some(m.values[k])) }

  ghost predicate WithinBounds(m: Metadata) {
    |m.keys| <= MAX_METADATA_ENTRIES &&
    forall k | k in m.values :: 0 < |k| <= MAX_METADATA_KEY_LENGTH && |m.values[k]| <= MAX_METADATA_VALUE_LENGTH
  }

  ghost predicate AllStrings(m: Input) { forall k | k in m.values :: m.values[k].Some? }

  lemma CreateAccepts(m: Input)
    ensures Create(m).Accepted? <==> AllStrings(m) && WithinBounds(Strings(m))
  {
    if Create(m).Accepted? {
      forall k | k in m.values ensures KeyProblem(m, k) == None {
        var i :| 0 <= i < |m.keys| && m.keys[i] == k;
      }
    } else if |m.keys| <= MAX_METADATA_ENTRIES {
      var i :| 0 <= i < |m.keys| && KeyProblem(m, m.keys[i]) != None;
      assert m.keys[i] in m.values && m.keys[i] in Strings(m).values;
    }
  }

  lemma RejectedWithinBounds(r: Rejection)
    ensures WithinBounds(Rejected(r))
  {
    hide Ascii;
    assert |MARKER| == |"metadataRejected"|;
    assert 0 < |MARKER| <= 64 && |ReasonText(r)| <= 64;
  }

  /**
   What is stored is always within the bounds. A record of strings within them is
   stored as it came, and for any other a marker naming the reason.
   */
  lemma MetadataForBounds(m: Input)
    ensures WithinBounds(MetadataFor(m))
    ensures if AllStrings(m) && WithinBounds(Strings(m)) then MetadataFor(m) == Strings(m)
            else Create(m).Refused? && MetadataFor(m) == Rejected(Create(m).reason)
  {
    hide Rejected;
    CreateAccepts(m);
    if Create(m).Refused? {
      RejectedWithinBounds(Create(m).reason);
    }
  }

  ghost predicate Fine(m: Input, key: Text)
    requires key in m.values
  {
    0 < |key| <= MAX_METADATA_KEY_LENGTH && m.values[key].Some? &&
    |m.values[key].value| <= MAX_METADATA_VALUE_LENGTH
  }

  /** What the marker says, from the record that was supplied: the fault of the first key that has one. */
  ghost function FaultOf(m: Input, key: Text): (fault: string)
    requires key in m.values
    ensures forall i | 0 <= i < |fault| :: fault[i] < '\U{80}'
  {
    if |key| == 0 then "empty_key"
    else if |key| > MAX_METADATA_KEY_LENGTH then "key_too_long"
    else if m.values[key].None? then "non_string_value"
    else "value_too_long"
  }

  lemma {:induction false} FirstProblemAt(m: Input, keys: seq<Text>, i: nat)
    requires forall k | 0 <= k < |keys| :: keys[k] in m.values
    requires i < |keys| && !Fine(m, keys[i]) && forall k | 0 <= k < i :: Fine(m, keys[k])
    ensures FirstProblem(m, keys).Some? && FirstProblem(m, keys) == KeyProblem(m, keys[i])
    ensures ReasonText(FirstProblem(m, keys).value) == Ascii(FaultOf(m, keys[i]))
    decreases i
  {
    hide Ascii;
    if i > 0 {
      assert Fine(m, keys[0]);
      FirstProblemAt(m, keys[1..], i - 1);
    }
  }

  /** A record that is not stored leaves one entry behind, which names what was wrong with it. */
  lemma TooManyIsMarked(m: Input)
    requires |m.keys| > MAX_METADATA_ENTRIES
    ensures MetadataFor(m).values == map[MARKER := TOO_MANY_FIELDS]
  {
    hide Ascii, Rejected;
    RejectedHolds(TooManyFields);
  }

  /** Otherwise that is the fault of the first key that has one, whatever is wrong behind it. */
  lemma {:induction false} FirstFaultIsMarked(m: Input, i: nat)
    requires |m.keys| <= MAX_METADATA_ENTRIES
    requires i < |m.keys| && !Fine(m, m.keys[i]) && forall k | 0 <= k < i :: Fine(m, m.keys[k])
    ensures MetadataFor(m).values == map[MARKER := Ascii(FaultOf(m, m.keys[i]))]
  {
    hide Ascii, FirstProblem, Rejected, FaultOf, KeyProblem, Fine, ReasonText;
    FirstProblemAt(m, m.keys, i);
    RejectedHolds(FirstProblem(m, m.keys).value);
  }

  lemma RejectedHolds(r: Rejection)
    ensures Rejected(r).values == map[MARKER := ReasonText(r)]
  {
    hide ReasonText;
  }

  lemma StringsOfSupplied(m: Metadata)
    ensures Strings(Supplied(m)) == m && AllStrings(Supplied(m))
  {
    assert Strings(Supplied(m)).values == m.values;
  }

  /** A record of strings within the bounds is stored unchanged. */
  lemma SuppliedIsStored(m: Metadata)
    requires WithinBounds(m)
    ensures MetadataFor(Supplied(m)) == m
  {
    hide Supplied, Strings, AllStrings, WithinBounds, MetadataFor, Create;
    StringsOfSupplied(m);
    MetadataForBounds(Supplied(m));
  }

  // ---- Escapes -------------------------------------------------------------

  const BACKSLASH: CodeUnit := 92

  function HexDigit(n: nat): CodeUnit
    requires n < 16
  {
    if n < 10 then 48 + n else 87 + n
  }

  /** A backslash, the letter u and four lower-case hexadecimal digits. */
  function UnicodeEscape(u: CodeUnit): (t: Text)
    ensures |t| == 6
  {
    [BACKSLASH, 117, HexDigit(u / 4096), HexDigit(u / 256 % 16), HexDigit(u / 16 % 16), HexDigit(u % 16)]
  }

  predicate IsControl(u: CodeUnit) { u < 0x20 || 0x7F <= u < 0xA0 }

  function EscapeUnit(u: CodeUnit): (t: Text)
    ensures t != []
  {
    if u == BACKSLASH then [BACKSLASH, BACKSLASH]
    else if u == 10 then [BACKSLASH, 110]
    else if u == 13 then [BACKSLASH, 114]
    else if u == 9 then [BACKSLASH, 116]
    else if IsControl(u) then UnicodeEscape(u)
    else [u]
  }

  function EscapeForText(t: Text): Text {
    if t == [] then [] else EscapeUnit(t[0]) + EscapeForText(t[1..])
  }

  /** How many code units the first escape of an escaped text takes. */
  function EscapeWidth(t: Text): (n: nat)
    requires t != []
    ensures 1 <= n
  {
    if t[0] != BACKSLASH || |t| == 1 then 1 else if t[1] == 117 then 6 else 2
  }

  function HexValue(u: CodeUnit): int { if u < 58 then u - 48 else (u as int) - 87 }

  function UnescapeFirst(t: Text): int
    requires t != []
  {
    if t[0] != BACKSLASH || |t| == 1 then t[0]
    else if t[1] == 110 then 10
    else if t[1] == 114 then 13
    else if t[1] == 116 then 9
    else if t[1] == 117 && |t| >= 6 then
      HexValue(t[2]) * 4096 + HexValue(t[3]) * 256 + HexValue(t[4]) * 16 + HexValue(t[5])
    else BACKSLASH
  }

  /** Reads an escaped text back. */
  function Unescape(t: Text): seq<int>
    decreases |t|
  {
    if t == [] then []
    else [UnescapeFirst(t)] + (if EscapeWidth(t) <= |t| then Unescape(t[EscapeWidth(t)..]) else [])
  }

  lemma UnescapeUnit(u: CodeUnit, rest: Text)
    ensures var t := EscapeUnit(u) + rest;
      EscapeWidth(t) == |EscapeUnit(u)| && UnescapeFirst(t) == u && t[EscapeWidth(t)..] == rest
  {
    if IsControl(u) && u != 9 && u != 10 && u != 13 {
      assert u / 4096 == 0 && u / 256 == 0;
      assert HexValue(HexDigit(u / 16 % 16)) == u / 16 && HexValue(HexDigit(u % 16)) == u % 16;
    }
  }

  /** The escape is one-to-one: what was supplied can be read back from the log line. */
  lemma {:induction false} UnescapeEscaped(t: Text)
    ensures Unescape(EscapeForText(t)) == t
  {
    if t != [] {
      UnescapeUnit(t[0], EscapeForText(t[1..]));
      UnescapeEscaped(t[1..]);
      assert [t[0]] + t[1..] == t;
    }
  }

  /** A text with nothing to escape is written as it is, and the common controls by their letters. */
  lemma {:induction false} EscapeKeepsPlain(t: Text)
    requires forall i | 0 <= i < |t| :: !IsControl(t[i]) && t[i] != BACKSLASH
    ensures EscapeForText(t) == t
  {
    if t != [] {
      EscapeKeepsPlain(t[1..]);
      assert t == [t[0]] + t[1..];
    }
  }

  lemma CommonControls()
    ensures EscapeUnit(10) == Ascii("\\n") && EscapeUnit(13) == Ascii("\\r") && EscapeUnit(9) == Ascii("\\t")
    ensures EscapeUnit(BACKSLASH) == Ascii("\\\\")
  {
    assert "\\n"[1..] == "n" && "\\r"[1..] == "r" && "\\t"[1..] == "t" && "\\\\"[1..] == "\\";
    assert "n"[1..] == "" && "r"[1..] == "" && "t"[1..] == "" && "\\"[1..] == "";
  }

  ghost predicate ControlFree(t: Text) { forall i | 0 <= i < |t| :: !IsControl(t[i]) }

  /** No control character survives the escape. */
  lemma {:induction false} EscapedIsControlFree(t: Text)
    ensures ControlFree(EscapeForText(t))
  {
    if t != [] {
      EscapedIsControlFree(t[1..]);
      assert ControlFree(EscapeUnit(t[0]));
    }
  }

  predicate IsRawTerminator(u: CodeUnit) { u == 0x85 || u == 0x2028 || u == 0x2029 }

  function EscapeJsonLineTerminators(t: Text): Text {
    if t == [] then []
    else (if IsRawTerminator(t[0]) then UnicodeEscape(t[0]) else [t[0]]) + EscapeJsonLineTerminators(t[1..])
  }

  /** No control character below U+0020 and none of the terminators JSON leaves raw. */
  ghost predicate LineSafe(t: Text) { forall i | 0 <= i < |t| :: t[i] >= 0x20 && !IsRawTerminator(t[i]) }

  /** The escape leaves no line terminator of any kind in a text that holds no raw CR or LF. */
  lemma {:induction false} JsonBecomesLineSafe(t: Text)
    requires forall i | 0 <= i < |t| :: t[i] >= 0x20
    ensures LineSafe(EscapeJsonLineTerminators(t))
  {
    if t != [] {
      JsonBecomesLineSafe(t[1..]);
      assert LineSafe(if IsRawTerminator(t[0]) then UnicodeEscape(t[0]) else [t[0]]);
    }
  }

  /** In JSON text a backslash begins an escape, of two or six units, and no line terminator stands inside one. */
  predicate CompleteEscapes(t: Text) {
    t == [] ||
    if t[0] != BACKSLASH then CompleteEscapes(t[1..])
    else
      |t| >= EscapeWidth(t) > 1 &&
      (forall i | 1 <= i < EscapeWidth(t) :: !IsRawTerminator(t[i])) && CompleteEscapes(t[EscapeWidth(t)..])
  }

  /** What JSON text stands for, unit by unit; `short` says what the two-unit escapes stand for. */
  function ReadJson(t: Text, short: CodeUnit -> int): seq<int>
    requires CompleteEscapes(t)
  {
    if t == [] then []
    else if t[0] != BACKSLASH then [t[0]] + ReadJson(t[1..], short)
    else
      var n := EscapeWidth(t);
      [if n == 6 then UnescapeFirst(t) else short(t[1])] + ReadJson(t[n..], short)
  }

  lemma EscapedTerminator(u: CodeUnit, rest: Text)
    requires IsRawTerminator(u)
    ensures var t := UnicodeEscape(u) + rest;
      t[0] == BACKSLASH && EscapeWidth(t) == 6 && UnescapeFirst(t) == u && t[6..] == rest
    ensures forall i | 1 <= i < 6 :: !IsRawTerminator(UnicodeEscape(u)[i])
  {
  }

  /** Escaping the line terminators that JSON leaves raw changes nothing in what the JSON stands for. */
  lemma {:induction false} JsonMeaningKept(t: Text, short: CodeUnit -> int)
    requires CompleteEscapes(t)
    ensures CompleteEscapes(EscapeJsonLineTerminators(t))
    ensures ReadJson(EscapeJsonLineTerminators(t), short) == ReadJson(t, short)
    decreases |t|
  {
    hide UnicodeEscape;
    if t == [] {
    } else if t[0] != BACKSLASH {
      JsonMeaningKept(t[1..], short);
      var rest := EscapeJsonLineTerminators(t[1..]);
      if IsRawTerminator(t[0]) {
        EscapedTerminator(t[0], rest);
        var e := UnicodeEscape(t[0]) + rest;
        assert forall i | 1 <= i < 6 :: e[i] == UnicodeEscape(t[0])[i];
      } else {
        assert ([t[0]] + rest)[1..] == rest;
      }
    } else {
      var n := EscapeWidth(t);
      JsonMeaningKept(t[n..], short);
      EscapeSkips(t, n);
      var rest := EscapeJsonLineTerminators(t[n..]);
      var e := t[..n] + rest;
      assert e[n..] == rest && forall i | 0 <= i < n :: e[i] == t[i];
    }
  }

  lemma {:induction false} EscapeSkips(t: Text, n: nat)
    requires n <= |t| && forall i | 0 <= i < n :: !IsRawTerminator(t[i])
    ensures EscapeJsonLineTerminators(t) == t[..n] + EscapeJsonLineTerminators(t[n..])
  {
    if n > 0 {
      EscapeSkips(t[1..], n - 1);
      assert t[1..][n - 1..] == t[n..] && t[..n] == [t[0]] + t[1..][..n - 1];
    }
  }

  /** A leading apostrophe for a cell a spreadsheet would take for a formula. */
  function NeutralizeFormulaPrefix(t: Text): Text {
    if t != [] && t[0] in {61, 43, 45, 64, 9, 13} then [39] + t else t
  }

  /** What a spreadsheet takes for the start of a formula. */
  predicate StartsFormula(t: Text) {
    t != [] && (t[0] == '=' as int || t[0] == '+' as int || t[0] == '-' as int || t[0] == '@' as int ||
                t[0] == '\t' as int || t[0] == '\r' as int)
  }

  /** No cell starts a formula, and only one that would have gets an apostrophe. */
  lemma NeutralizedIsNoFormula(t: Text)
    ensures !StartsFormula(NeutralizeFormulaPrefix(t))
    ensures NeutralizeFormulaPrefix(t) == if StartsFormula(t) then ['\'' as int] + t else t
  {
  }
}
