/** The FIX 4.2 tag=value codec: serialise, parse, checksum, validate. */
module Fix42 {
  import opened FixText
  import opened Options
  import opened Modular

  const SOH: char := '\U{0001}'

  const BEGIN_STRING: Tag := 8
  const BODY_LENGTH: Tag := 9
  const CHECK_SUM: Tag := 10
  const MSG_SEQ_NUM: Tag := 34
  const MSG_TYPE: Tag := 35
  const SENDER_COMP_ID: Tag := 49
  const SENDING_TIME: Tag := 52
  const TARGET_COMP_ID: Tag := 56

  const VERSION := "FIX.4.2"

  type Fields = map<Tag, string>

  datatype Message = Message(fields: Fields, raw: string)

  // ---- the order of a std::map ----------------------------------------------

  predicate IsLargest(s: set<Tag>, t: Tag) {
    t in s && forall u :: u in s ==> u <= t
  }

  function Largest(s: set<Tag>): (t: Tag)
    requires s != {}
    ensures t in s && forall u :: u in s ==> u <= t
  {
    LargestExists(s);
    var t :| t in s && IsLargest(s, t);
    t
  }

  lemma {:induction false} LargestExists(s: set<Tag>)
    requires s != {}
    ensures exists t :: t in s && IsLargest(s, t)
  {
    var x :| x in s;
    var others := s - {x};
    assert s == others + {x};
    if others == {} {
      assert IsLargest(s, x);
    } else {
      LargestExists(others);
      var y :| y in others && IsLargest(others, y);
      var t := if x >= y then x else y;
      assert IsLargest(others + {x}, t);
    }
  }

  function Ascending(s: set<Tag>): (r: seq<Tag>)
    ensures forall t :: t in r <==> t in s
    ensures forall i, j :: 0 <= i < j < |r| ==> r[i] < r[j]
  {
    if s == {} then [] else Ascending(s - {Largest(s)}) + [Largest(s)]
  }

  // ---- serialize ------------------------------------------------------------

  predicate Framing(t: Tag) { t == BEGIN_STRING || t == BODY_LENGTH || t == CHECK_SUM }

  function Entry(t: Tag, value: string): string {
    TagText(t) + "=" + value + [SOH]
  }

  /** The entries of `tags`, without the framing ones. */
  function Body(fields: Fields, tags: seq<Tag>): string
    requires forall t :: t in tags ==> t in fields
  {
    if tags == [] then ""
    else
      var n := |tags| - 1;
      Body(fields, tags[..n]) + Piece(fields, tags[n])
  }

  function BodyOf(fields: Fields): string {
    Body(fields, Ascending(fields.Keys))
  }

  function HeaderOf(fields: Fields): string {
    Entry(BEGIN_STRING, VERSION) + Entry(BODY_LENGTH, ToString(|BodyOf(fields)|)) + BodyOf(fields)
  }

  function ChecksumText(s: string): string {
    ThreeDigits(ByteSum(s) % 256)
  }

  function Serialized(fields: Fields): string {
    HeaderOf(fields) + Entry(CHECK_SUM, ChecksumText(HeaderOf(fields)))
  }

  function Piece(fields: Fields, t: Tag): string
    requires t in fields
  {
    if Framing(t) then "" else Entry(t, fields[t])
  }

  lemma BodySnoc(fields: Fields, tags: seq<Tag>, i: nat)
    requires i < |tags| && forall t :: t in tags ==> t in fields
    ensures Body(fields, tags[..i + 1]) == Body(fields, tags[..i]) + Piece(fields, tags[i])
  {
    hide Entry;
    assert tags[..i + 1][..i] == tags[..i];
  }

  method SerializeBody(fields: Fields) returns (body: string)
    ensures body == BodyOf(fields)
  {
    hide Body, ToString, TagText, Ascending;
    var tags := Ascending(fields.Keys);
    body := "";
    BodyNone(fields);
    for i := 0 to |tags|
      invariant body == Body(fields, tags[..i])
    {
      BodySnoc(fields, tags, i);
      if tags[i] != BEGIN_STRING && tags[i] != BODY_LENGTH && tags[i] != CHECK_SUM {
        body := body + (TagText(tags[i]) + "=" + fields[tags[i]] + [SOH]);
      }
    }
    assert tags[..|tags|] == tags;
  }

  lemma BodyNone(fields: Fields)
    ensures Body(fields, []) == ""
  {
  }

  method Serialize(msg: Message) returns (full: string)
    ensures full == Serialized(msg.fields)
    ensures var body := BodyOf(msg.fields);
            var before := "8=FIX.4.2\U{0001}" + "9=" + ToString(|body|) + "\U{0001}" + body;
            exists check :: full == before + "10=" + check + "\U{0001}"
                            && |check| == 3 && AllDigits(check) && Value(check) == ByteSum(before) % 256
  {
    SerializedAs(msg.fields);
    hide BodyOf, ToString, TagText, ChecksumText;
    var body := SerializeBody(msg.fields);
    var header := TagText(BEGIN_STRING) + "=" + VERSION + [SOH];
    header := header + (TagText(BODY_LENGTH) + "=" + ToString(|body|) + [SOH]);
    header := header + body;
    var checksum := CalculateChecksum(header);
    full := header + (TagText(CHECK_SUM) + "=" + checksum + [SOH]);
  }

  lemma ByteSumSnoc(s: string, i: nat)
    requires i < |s|
    ensures ByteSum(s[..i + 1]) == ByteSum(s[..i]) + ByteOf(s[i])
  {
    assert s[..i + 1][..i] == s[..i];
  }

  lemma WrapKeepsByte(n: nat)
    ensures n % 0x1_0000_0000 % 256 == n % 256
  {
  }

  /** The checksum of Appendix B of FIX 4.2: the byte sum modulo 256 in three digits. The 32-bit
      running sum may wrap. */
  method CalculateChecksum(s: string) returns (text: string)
    ensures text == ChecksumText(s)
    ensures |text| == 3 && AllDigits(text) && Value(text) == ByteSum(s) % 256
    ensures 100 * (text[0] as int - 48) + 10 * (text[1] as int - 48) + (text[2] as int - 48) == ByteSum(s) % 256
  {
    hide ByteSum, ByteOf, ThreeDigits, Digits, Padded;
    var sum: nat := 0;
    assert s[..0] == "";
    ByteSumNone();
    for i := 0 to |s|
      invariant sum == ByteSum(s[..i]) % 0x1_0000_0000
    {
      ByteSumSnoc(s, i);
      ModAdd(ByteSum(s[..i]), ByteOf(s[i]), 0x1_0000_0000);
      sum := (sum + ByteOf(s[i])) % 0x1_0000_0000;
    }
    assert s[..|s|] == s;
    WrapKeepsByte(ByteSum(s));
    sum := sum % 256;
    PaddedIsThreeDigits(sum);
    text := Padded(Digits(sum), 3);
    ChecksumIs(s);
  }

  lemma ByteSumNone()
    ensures ByteSum("") == 0
  {
  }

  lemma ChecksumIs(s: string)
    ensures var text := ChecksumText(s);
            && |text| == 3 && AllDigits(text) && Value(text) == ByteSum(s) % 256
            && 100 * (text[0] as int - 48) + 10 * (text[1] as int - 48) + (text[2] as int - 48) == ByteSum(s) % 256
  {
    ThreeDigitsValue(ByteSum(s) % 256);
    ValueOfThree(ByteSum(s) % 256);
    hide ByteSum, ThreeDigits, Value;
  }

  /** The text of a message, in the letters that go out. */
  lemma SerializedIs(fields: Fields)
    ensures var body := BodyOf(fields);
            var length := ToString(|body|);
            var before := "8=FIX.4.2\U{0001}" + "9=" + length + "\U{0001}" + body;
            && AllDigits(length) && Value(length) == |body|
            && Serialized(fields) == before + "10=" + ChecksumText(before) + "\U{0001}"
  {
    var body := BodyOf(fields);
    hide BodyOf, ChecksumText, Digits, Value;
    ValueOfDigits(|body|);
    assert TagText(8) == "8" && TagText(9) == "9" && TagText(10) == "10" by {
      TagLetters();
    }
    assert HeaderOf(fields) == "8=FIX.4.2\U{0001}" + "9=" + ToString(|body|) + "\U{0001}" + body;
  }

  lemma SerializedAs(fields: Fields)
    ensures var body := BodyOf(fields);
            var before := "8=FIX.4.2\U{0001}" + "9=" + ToString(|body|) + "\U{0001}" + body;
            exists check :: Serialized(fields) == before + "10=" + check + "\U{0001}"
                            && |check| == 3 && AllDigits(check) && Value(check) == ByteSum(before) % 256
  {
    var body := BodyOf(fields);
    var before := "8=FIX.4.2\U{0001}" + "9=" + ToString(|body|) + "\U{0001}" + body;
    SerializedIs(fields);
    ChecksumIs(before);
    hide Serialized, BodyOf, ByteSum, Value, ToString;
    var check := ChecksumText(before);
    hide ChecksumText;
    assert Serialized(fields) == before + "10=" + check + "\U{0001}";
  }

  lemma TagLetters()
    ensures TagText(8) == "8" && TagText(9) == "9" && TagText(10) == "10"
  {
  }

  lemma LargestLast(s: set<Tag>, t: Tag)
    requires t in s && forall u :: u in s ==> u <= t
    ensures Ascending(s) == Ascending(s - {t}) + [t]
  {
    assert Largest(s) == t;
  }

  lemma BodyOfNone()
    ensures BodyOf(map[]) == ""
  {
    var none: Fields := map[];
    assert none.Keys == {};
  }

  lemma BodyPlus(fields: Fields, front: seq<Tag>, t: Tag)
    requires t in fields && forall u :: u in front ==> u in fields
    ensures forall u :: u in front + [t] ==> u in fields
    ensures Body(fields, front + [t]) == Body(fields, front) + Piece(fields, t)
  {
    hide Piece;
    assert (front + [t])[..|front|] == front;
  }

  lemma BodyTail(fields: Fields, t: Tag)
    requires t in fields && forall u :: u in fields ==> u <= t
    ensures BodyOf(fields) == Body(fields, Ascending(fields.Keys - {t})) + Piece(fields, t)
  {
    LargestLast(fields.Keys, t);
    hide Piece, Ascending, Body;
    BodyPlus(fields, Ascending(fields.Keys - {t}), t);
  }

  /** The body: empty without fields, and with the largest tag its entry comes last, unless it is one
      of the three that are set by the serialiser. */
  lemma BodyIs(fields: Fields, t: Tag)
    requires t in fields && forall u :: u in fields ==> u <= t
    ensures BodyOf(map[]) == ""
    ensures BodyOf(fields) ==
              BodyOf(fields - {t}) +
              if t == 8 || t == 9 || t == 10 then "" else TagText(t) + "=" + fields[t] + "\U{0001}"
  {
    BodyOfNone();
    BodyTail(fields, t);
    BodyLess(fields, t);
    EntryLetters(t, fields[t]);
    hide Entry, Ascending, Body, TagText, BodyOf;
  }

  lemma BodyLess(fields: Fields, t: Tag)
    ensures BodyOf(fields - {t}) == Body(fields, Ascending(fields.Keys - {t}))
  {
    var rest := fields - {t};
    assert rest.Keys == fields.Keys - {t};
    var front := Ascending(rest.Keys);
    hide Ascending, Body;
    forall u | u in front ensures u in fields && u in rest && fields[u] == rest[u] {
      assert u in rest.Keys;
    }
    BodySame(fields, rest, front);
  }

  lemma EntryLetters(t: Tag, value: string)
    ensures Entry(t, value) == TagText(t) + "=" + value + "\U{0001}"
  {
    hide TagText;
  }

  lemma {:induction false} BodySame(fields: Fields, others: Fields, tags: seq<Tag>)
    requires forall t :: t in tags ==> t in fields && t in others && fields[t] == others[t]
    ensures Body(fields, tags) == Body(others, tags)
  {
    hide Entry;
    if tags != [] {
      BodySame(fields, others, tags[..|tags| - 1]);
    }
  }

  // ---- deserialize ----------------------------------------------------------

  /** One field: ignored without `=` or with a tag that is not a number. */
  function Put(fields: Fields, field: string): Fields {
    var e := Find(field, '=');
    if e == |field| then fields
    else
      match Stoi(field[..e])
      case None => fields
      case Some(tag) => fields[tag := field[e + 1..]]
  }

  function Decoded(raw: string, fields: Fields): Fields
    decreases |raw|
  {
    var n := Find(raw, SOH);
    if n == |raw| then fields else Decoded(raw[n + 1..], Put(fields, raw[..n]))
  }

  lemma DecodedUnfold(raw: string, fields: Fields)
    ensures var n := Find(raw, SOH);
            Decoded(raw, fields) == if n == |raw| then fields else Decoded(raw[n + 1..], Put(fields, raw[..n]))
  {
    hide Put, Find;
  }

  lemma Tail(raw: string, pos: nat, n: nat)
    requires pos + n < |raw|
    ensures raw[pos..][..n] == raw[pos..pos + n] && raw[pos..][n + 1..] == raw[pos + n + 1..]
  {
  }

  /** One turn of the parsing loop. */
  lemma DecodedStep(raw: string, pos: nat, fields: Fields)
    requires pos <= |raw|
    ensures var next := pos + Find(raw[pos..], SOH);
            Decoded(raw[pos..], fields)
            == if next == |raw| then fields else Decoded(raw[next + 1..], Put(fields, raw[pos..next]))
  {
    hide Put, Find, Decoded;
    DecodedUnfold(raw[pos..], fields);
    var n := Find(raw[pos..], SOH);
    if pos + n < |raw| {
      Tail(raw, pos, n);
    }
  }

  method Deserialize(raw: string) returns (ok: bool, msg: Message)
    ensures msg == Message(Decoded(raw, map[]), raw) && ok == (msg.fields != map[])
  {
    hide Decoded, Find, Stoi;
    var fields: Fields := map[];
    var pos := 0;
    assert raw[0..] == raw;
    while pos < |raw|
      invariant pos <= |raw| && Decoded(raw, map[]) == Decoded(raw[pos..], fields)
    {
      var next := pos + Find(raw[pos..], SOH);
      DecodedStep(raw, pos, fields);
      if next == |raw| {
        return fields != map[], Message(fields, raw);
      }
      var field := raw[pos..next];
      var e := Find(field, '=');
      if e < |field| {
        match Stoi(field[..e])
        case None =>
        case Some(tag) => fields := fields[tag := field[e + 1..]];
      }
      pos := next + 1;
    }
    assert raw[pos..] == "";
    DecodedNothing(fields);
    return fields != map[], Message(fields, raw);
  }

  // ---- the round trip -------------------------------------------------------

  lemma PlainTagText(t: Tag)
    ensures '=' !in TagText(t) && SOH !in TagText(t)
  {
  }

  lemma PutEntry(fields: Fields, t: Tag, value: string)
    ensures Put(fields, TagText(t) + "=" + value) == fields[t := value]
  {
    var s := TagText(t);
    PlainTagText(t);
    FindBehind(s, '=', value);
    assert (s + "=" + value)[..|s|] == s && (s + "=" + value)[|s| + 1..] == value;
    StoiOfTagText(t);
  }

  lemma DecodedEntry(t: Tag, value: string, rest: string, fields: Fields)
    requires SOH !in value
    ensures Decoded(Entry(t, value) + rest, fields) == Decoded(rest, fields[t := value])
  {
    var field := TagText(t) + "=" + value;
    var raw := Entry(t, value) + rest;
    PlainTagText(t);
    assert raw == field + [SOH] + rest;
    FindBehind(field, SOH, rest);
    assert raw[..|field|] == field && raw[|field| + 1..] == rest;
    PutEntry(fields, t, value);
  }

  /** `fields` with the listed entries of `from` put over them. */
  function Overlaid(fields: Fields, from: Fields, tags: seq<Tag>): Fields
    requires forall t :: t in tags ==> t in from
  {
    if tags == [] then fields
    else
      var n := |tags| - 1;
      var before := Overlaid(fields, from, tags[..n]);
      if Framing(tags[n]) then before else before[tags[n] := from[tags[n]]]
  }

  /** No value the parser stores under a tag of its own holds a separator. */
  predicate SeparatorFree(fields: Fields) {
    forall t :: t in fields && !Framing(t) ==> SOH !in fields[t]
  }

  lemma DecodedPiece(fields: Fields, t: Tag, rest: string, before: Fields)
    requires SeparatorFree(fields) && t in fields
    ensures Decoded(Piece(fields, t) + rest, before)
            == Decoded(rest, if Framing(t) then before else before[t := fields[t]])
  {
    hide Decoded;
    if Framing(t) {
      assert Piece(fields, t) + rest == rest;
    } else {
      DecodedEntry(t, fields[t], rest, before);
    }
  }

  lemma {:induction false} DecodedBody(fields: Fields, tags: seq<Tag>, rest: string, before: Fields)
    requires SeparatorFree(fields) && forall t :: t in tags ==> t in fields
    ensures Decoded(Body(fields, tags) + rest, before) == Decoded(rest, Overlaid(before, fields, tags))
    decreases |tags|
  {
    hide Decoded, Piece, SeparatorFree;
    if tags == [] {
      assert Body(fields, tags) + rest == rest;
    } else {
      var n := |tags| - 1;
      var last := Piece(fields, tags[n]);
      assert Body(fields, tags) + rest == Body(fields, tags[..n]) + (last + rest);
      DecodedBody(fields, tags[..n], last + rest, before);
      DecodedPiece(fields, tags[n], rest, Overlaid(before, fields, tags[..n]));
    }
  }

  lemma {:induction false} OverlaidAt(fields: Fields, from: Fields, tags: seq<Tag>, t: Tag)
    requires forall u :: u in tags ==> u in from
    ensures t in tags && !Framing(t) ==> t in Overlaid(fields, from, tags) && Overlaid(fields, from, tags)[t] == from[t]
    ensures t !in tags || Framing(t) ==>
              (t in Overlaid(fields, from, tags) <==> t in fields)
              && (t in fields ==> Overlaid(fields, from, tags)[t] == fields[t])
    decreases |tags|
  {
    if tags != [] {
      OverlaidAt(fields, from, tags[..|tags| - 1], t);
    }
  }

  lemma DecodedBodyOf(fields: Fields, rest: string, before: Fields)
    requires SeparatorFree(fields)
    ensures Decoded(BodyOf(fields) + rest, before)
            == Decoded(rest, Overlaid(before, fields, Ascending(fields.Keys)))
  {
    DecodedBody(fields, Ascending(fields.Keys), rest, before);
  }

  /** What comes back: the fields, with the framing tags set to version, length and checksum. */
  function Restored(fields: Fields): Fields {
    fields[BEGIN_STRING := VERSION][BODY_LENGTH := ToString(|BodyOf(fields)|)]
          [CHECK_SUM := ChecksumText(HeaderOf(fields))]
  }

  lemma OverlaidIsRestored(fields: Fields)
    ensures var start: Fields := map[BEGIN_STRING := VERSION, BODY_LENGTH := ToString(|BodyOf(fields)|)];
            Overlaid(start, fields, Ascending(fields.Keys))[CHECK_SUM := ChecksumText(HeaderOf(fields))]
            == Restored(fields)
  {
    hide Overlaid, ToString, TagText, ChecksumText, HeaderOf, BodyOf, Ascending;
    var start: Fields := map[BEGIN_STRING := VERSION, BODY_LENGTH := ToString(|BodyOf(fields)|)];
    var tags := Ascending(fields.Keys);
    var o := Overlaid(start, fields, tags)[CHECK_SUM := ChecksumText(HeaderOf(fields))];
    var r := Restored(fields);
    forall t: Tag ensures (t in o <==> t in r) && (t in o ==> o[t] == r[t]) {
      OverlaidAt(start, fields, tags, t);
    }
    assert o.Keys == r.Keys;
  }

  lemma PlainNumbers(n: nat)
    ensures SOH !in ToString(n) && SOH !in ThreeDigits(n % 256) && SOH !in VERSION
  {
  }

  lemma Regroup(a: string, b: string, c: string, d: string)
    ensures a + b + c + d == a + (b + (c + d))
  {
  }

  lemma RoundTrip(fields: Fields)
    requires SeparatorFree(fields)
    ensures Decoded(Serialized(fields), map[]) == Restored(fields)
  {
    hide Decoded, ToString, TagText, Entry, ThreeDigits, Ascending, Overlaid, Restored;
    var length, body := ToString(|BodyOf(fields)|), BodyOf(fields);
    var check := ChecksumText(HeaderOf(fields));
    PlainNumbers(|body|);
    PlainNumbers(ByteSum(HeaderOf(fields)));
    var trailer := Entry(CHECK_SUM, check);
    var behind := Entry(BODY_LENGTH, length) + (body + trailer);
    Regroup(Entry(BEGIN_STRING, VERSION), Entry(BODY_LENGTH, length), body, trailer);
    assert Serialized(fields) == Entry(BEGIN_STRING, VERSION) + behind;
    hide HeaderOf, Serialized, ChecksumText, BodyOf;
    DecodedEntry(BEGIN_STRING, VERSION, behind, map[]);
    DecodedEntry(BODY_LENGTH, length, body + trailer, map[BEGIN_STRING := VERSION]);
    var start: Fields := map[BEGIN_STRING := VERSION, BODY_LENGTH := length];
    assert map[BEGIN_STRING := VERSION][BODY_LENGTH := length] == start;
    DecodedBodyOf(fields, trailer, start);
    var o := Overlaid(start, fields, Ascending(fields.Keys));
    assert trailer + "" == trailer;
    DecodedEntry(CHECK_SUM, check, "", o);
    DecodedNothing(o[CHECK_SUM := check]);
    OverlaidIsRestored(fields);
  }

  lemma DecodedNothing(fields: Fields)
    ensures Decoded("", fields) == fields
  {
  }

  /** What parsing a serialised message gives under the three tags the serialiser sets. */
  lemma ParsedTrailer(fields: Fields)
    requires SeparatorFree(fields)
    ensures var raw, got := Serialized(fields), Decoded(Serialized(fields), map[]);
            && 8 in got && 9 in got && 10 in got && got[8] == "FIX.4.2"
            && AllDigits(got[9]) && Value(got[9]) == |BodyOf(fields)|
            && |got[10]| == 3 && AllDigits(got[10]) && |raw| >= 7
            && Value(got[10]) == ByteSum(raw[..|raw| - 7]) % 256
  {
    RoundTrip(fields);
    SerializedIs(fields);
    ChecksumIs(HeaderOf(fields));
    SerializedLength(fields);
    hide Decoded, Serialized, BodyOf, HeaderOf, ByteSum, Value, ChecksumText, ToString;
  }

  lemma SerializedLength(fields: Fields)
    ensures |Serialized(fields)| == |HeaderOf(fields)| + 7
    ensures Serialized(fields)[..|HeaderOf(fields)|] == HeaderOf(fields)
  {
    hide HeaderOf, ByteSum;
    TagLetters();
  }

  /** Parsing, field by field. */
  lemma DecodedIs(field: string, rest: string, fields: Fields)
    requires '\U{0001}' !in field
    ensures Decoded(field, fields) == fields
    ensures Decoded(field + "\U{0001}" + rest, fields) == Decoded(rest, Put(fields, field))
  {
    hide Put;
    FindBehind(field, SOH, rest);
    var raw := field + [SOH] + rest;
    assert raw[..|field|] == field && raw[|field| + 1..] == rest;
  }

  /** Storing one field: up to the first '=' the tag, behind it the value. */
  lemma PutIs(fields: Fields, name: string, value: string)
    requires '=' !in name
    ensures Put(fields, name) == fields
    ensures Put(fields, name + "=" + value) ==
              match Stoi(name)
              case None => fields
              case Some(tag) => fields[tag := value]
  {
    hide Stoi;
    FindBehind(name, '=', value);
    var field := name + "=" + value;
    assert field[..|name|] == name && field[|name| + 1..] == value;
  }

  /** The parser never stores a separator. */
  lemma {:induction false} DecodedIsSeparatorFree(raw: string, fields: Fields)
    requires forall t :: t in fields ==> SOH !in fields[t]
    ensures forall t :: t in Decoded(raw, fields) ==> SOH !in Decoded(raw, fields)[t]
    decreases |raw|
  {
    var n := Find(raw, SOH);
    if n < |raw| {
      DecodedIsSeparatorFree(raw[n + 1..], Put(fields, raw[..n]));
    }
  }

  /** Parsing gives the message back exactly when no value holds the separator. */
  lemma RoundTripIff(fields: Fields)
    ensures Decoded(Serialized(fields), map[]) == Restored(fields) <==> SeparatorFree(fields)
  {
    hide Decoded, Serialized, ToString, TagText, ChecksumText, BodyOf, HeaderOf;
    if SeparatorFree(fields) {
      RoundTrip(fields);
    } else {
      DecodedIsSeparatorFree(Serialized(fields), map[]);
      var t :| t in fields && !Framing(t) && SOH in fields[t];
      assert t in Restored(fields) && Restored(fields)[t] == fields[t];
    }
  }
}
