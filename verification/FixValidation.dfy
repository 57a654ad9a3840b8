/** When the FIX 4.2 validator accepts what the serialiser wrote. */
module FixValidation {
  import opened FixText
  import opened Fix42

  const CHECK := "10="

  predicate HasRequired(fields: Fields) {
    BEGIN_STRING in fields && BODY_LENGTH in fields && MSG_TYPE in fields && SENDER_COMP_ID in fields
    && TARGET_COMP_ID in fields && MSG_SEQ_NUM in fields && SENDING_TIME in fields && CHECK_SUM in fields
  }

  /** The receiver's check. The checksum covers the bytes before the first "10=", wherever it is. */
  predicate Validates(msg: Message, sender: string, target: string) {
    HasRequired(msg.fields)
    && msg.fields[BEGIN_STRING] == VERSION
    && msg.fields[SENDER_COMP_ID] == target && msg.fields[TARGET_COMP_ID] == sender
    && ChecksumText(msg.raw[..FindWord(msg.raw, CHECK)]) == msg.fields[CHECK_SUM]
  }

  /** What the receiver makes of a sent message. */
  predicate Accepted(fields: Fields, sender: string, target: string) {
    Validates(Message(Decoded(Serialized(fields), map[]), Serialized(fields)), sender, target)
  }

  /** Addressed to the receiver, with everything a sender has to supply. */
  predicate Addressed(fields: Fields, sender: string, target: string) {
    MSG_TYPE in fields && SENDER_COMP_ID in fields && TARGET_COMP_ID in fields
    && MSG_SEQ_NUM in fields && SENDING_TIME in fields
    && fields[SENDER_COMP_ID] == target && fields[TARGET_COMP_ID] == sender
  }

  /** The bytes in front of the first "10=", all of them when there is none. */
  ghost predicate Summed(raw: string, n: nat) {
    && n <= |raw|
    && (forall i: nat :: i < n ==> !(i + 3 <= |raw| && raw[i] == '1' && raw[i + 1] == '0' && raw[i + 2] == '='))
    && (n < |raw| ==> n + 3 <= |raw| && raw[n] == '1' && raw[n + 1] == '0' && raw[n + 2] == '=')
  }

  /** For every message: it is accepted exactly when the eight required tags are there, the version
      is right, the sender is the receiver's target and the other way round, and field 10 is the
      three-digit sum modulo 256 of the bytes in front of the first "10=". */
  lemma ValidatesIff(msg: Message, sender: string, target: string, n: nat)
    requires Summed(msg.raw, n)
    ensures Validates(msg, sender, target) <==>
              && 8 in msg.fields && 9 in msg.fields && 35 in msg.fields && 49 in msg.fields
              && 56 in msg.fields && 34 in msg.fields && 52 in msg.fields && 10 in msg.fields
              && msg.fields[8] == "FIX.4.2" && msg.fields[49] == target && msg.fields[56] == sender
              && |msg.fields[10]| == 3 && AllDigits(msg.fields[10])
              && Value(msg.fields[10]) == ByteSum(msg.raw[..n]) % 256
  {
    SummedIsFind(msg.raw, n);
    if 10 in msg.fields {
      ChecksumIff(msg.raw[..n], msg.fields[10]);
    }
    hide FindWord, ByteSum, ChecksumText, Value, AllDigits;
  }

  lemma SummedIsFind(raw: string, n: nat)
    requires Summed(raw, n)
    ensures FindWord(raw, CHECK) == n
  {
    forall i: nat | i < n ensures !At(raw, i, CHECK) {
      AtLetters(raw, i);
    }
    var k := FindWord(raw, CHECK);
    FindWordFirst(raw, CHECK);
    AtLetters(raw, n);
    AtLetters(raw, k);
  }

  /** A text is the checksum text exactly when it is the sum in three digits. */
  lemma ChecksumIff(s: string, text: string)
    ensures text == ChecksumText(s) <==> |text| == 3 && AllDigits(text) && Value(text) == ByteSum(s) % 256
  {
    ChecksumIs(s);
    hide ByteSum;
    if |text| == 3 && AllDigits(text) && Value(text) == ByteSum(s) % 256 {
      ThreeDigitTexts(text, ChecksumText(s));
    }
  }

  lemma ThreeDigitTexts(a: string, b: string)
    requires |a| == 3 == |b| && AllDigits(a) && AllDigits(b) && Value(a) == Value(b)
    ensures a == b
  {
    ThreeDigitValue(a);
    ThreeDigitValue(b);
    hide Value, AllDigits;
  }

  lemma ThreeDigitValue(s: string)
    requires |s| == 3 && AllDigits(s)
    ensures Value(s) == 100 * (s[0] as int - 48) + 10 * (s[1] as int - 48) + (s[2] as int - 48)
    ensures forall i :: 0 <= i < 3 ==> 48 <= s[i] as int < 58
  {
    ValueIs("", s[0]);
    ValueIs([s[0]], s[1]);
    ValueIs([s[0], s[1]], s[2]);
    assert [] + [s[0]] == [s[0]] && [s[0]] + [s[1]] == [s[0], s[1]] && [s[0], s[1]] + [s[2]] == s;
  }

  // ---- the exact condition --------------------------------------------------

  /** Where the receiver stops summing, within the checksummed part. */
  function Stop(fields: Fields): (n: nat)
    ensures n <= |HeaderOf(fields)|
  {
    StopInHeader(fields);
    FindWord(Serialized(fields), CHECK)
  }

  lemma TrailerAt(fields: Fields)
    ensures At(Serialized(fields), |HeaderOf(fields)|, CHECK)
  {
    hide HeaderOf, ChecksumText;
    assert TagText(CHECK_SUM) == "10";
    var h, raw := HeaderOf(fields), Serialized(fields);
    assert raw == h + CHECK + (ChecksumText(h) + [SOH]);
  }

  lemma StopInHeader(fields: Fields)
    ensures FindWord(Serialized(fields), CHECK) <= |HeaderOf(fields)|
  {
    TrailerAt(fields);
    FindWordFirst(Serialized(fields), CHECK);
  }

  /** The checksum matches exactly when what the receiver leaves out sums to zero modulo 256. */
  lemma ChecksumOfPrefix(header: string, n: nat)
    requires n <= |header|
    ensures ChecksumText(header[..n]) == ChecksumText(header) <==> ByteSum(header[n..]) % 256 == 0
  {
    hide ByteSum, ThreeDigits;
    assert header == header[..n] + header[n..];
    ByteSumConcat(header[..n], header[n..]);
    ThreeDigitsInjective(ByteSum(header[..n]) % 256, ByteSum(header) % 256);
  }

  lemma AcceptedIff(fields: Fields, sender: string, target: string)
    requires SeparatorFree(fields)
    ensures Accepted(fields, sender, target)
            <==> Addressed(fields, sender, target) && ByteSum(HeaderOf(fields)[Stop(fields)..]) % 256 == 0
  {
    hide Decoded, Serialized, HeaderOf, ChecksumText, FindWord, ByteSum, BodyOf;
    RoundTrip(fields);
    PrefixOfSerialized(fields);
    ChecksumOfPrefix(HeaderOf(fields), Stop(fields));
    StopIsFind(fields);
  }

  lemma StopIsFind(fields: Fields)
    ensures Stop(fields) == FindWord(Serialized(fields), CHECK)
  {
  }

  lemma PrefixOfSerialized(fields: Fields)
    ensures |HeaderOf(fields)| <= |Serialized(fields)|
    ensures Serialized(fields)[..Stop(fields)] == HeaderOf(fields)[..Stop(fields)]
  {
    hide FindWord, HeaderOf, ChecksumText;
  }

  // ---- the condition on the message -----------------------------------------

  predicate EndsInTen(t: Tag) {
    var n := t as int;
    (if n < 0 then -n else n) % 100 == 10
  }

  /** An entry in whose text "10=" occurs. */
  ghost predicate MentionsCheck(t: Tag, value: string) {
    EndsInTen(t) || Contains(value, CHECK)
  }

  predicate EndsWithTen(s: string) {
    |s| >= 2 && s[|s| - 2] == '1' && s[|s| - 1] == '0'
  }

  lemma LastDigit(n: nat)
    ensures Digits(n)[|Digits(n)| - 1] == DigitOf(n % 10)
  {
  }

  lemma LastTwo(n: nat)
    ensures n % 100 == 10 <==> n / 10 % 10 == 1 && n % 10 == 0
  {
    assert n == 10 * (n / 10) + n % 10;
  }

  lemma DigitsEnd(n: nat)
    ensures EndsWithTen(Digits(n)) <==> n % 100 == 10
  {
    LastTwo(n);
    if n >= 10 {
      hide DigitOf;
      LastDigit(n / 10);
      LastDigit(n);
      assert DigitValue('1') == 1 && DigitValue('0') == 0;
      assert Digits(n) == Digits(n / 10) + [DigitOf(n % 10)];
    }
  }

  lemma TagEnd(t: Tag)
    ensures EndsWithTen(TagText(t)) <==> EndsInTen(t)
  {
    var n := t as int;
    DigitsEnd(if n < 0 then -n else n);
  }

  lemma AtLetters(s: string, i: nat)
    ensures At(s, i, CHECK) <==> i + 3 <= |s| && s[i] == '1' && s[i + 1] == '0' && s[i + 2] == '='
  {
    if i + 3 <= |s| {
      assert s[i..i + 3] == [s[i], s[i + 1], s[i + 2]];
    }
  }

  /** In an entry "10=" stands at the end of the tag or inside the value. */
  lemma AtEntry(t: Tag, value: string, i: nat)
    ensures var n := |TagText(t)|;
            At(Entry(t, value), i, CHECK)
            <==> (i + 2 == n && EndsWithTen(TagText(t))) || (i > n && At(value, i - n - 1, CHECK))
  {
    var tag, s := TagText(t), Entry(t, value);
    PlainTagText(t);
    AtLetters(s, i);
    if i > |tag| {
      AtLetters(value, i - |tag| - 1);
    }
  }

  lemma EntryMentions(t: Tag, value: string)
    ensures Contains(Entry(t, value), CHECK) <==> MentionsCheck(t, value)
  {
    hide Entry, At, EndsInTen;
    TagEnd(t);
    var n := |TagText(t)|;
    forall i: nat ensures
      At(Entry(t, value), i, CHECK)
      <==> (i + 2 == n && EndsWithTen(TagText(t))) || (i > n && At(value, i - n - 1, CHECK))
    {
      AtEntry(t, value, i);
    }
    if EndsInTen(t) {
      assert At(Entry(t, value), n - 2, CHECK);
    }
    if Contains(value, CHECK) {
      var j: nat :| At(value, j, CHECK);
      assert At(Entry(t, value), j + n + 1, CHECK);
    }
  }

  /** "10=" does not reach across the end of an entry. */
  lemma AtSplit(a: string, b: string, i: nat)
    requires a == "" || a[|a| - 1] == SOH
    ensures At(a + b, i, CHECK) <==> if i < |a| then At(a, i, CHECK) else At(b, i - |a|, CHECK)
  {
    AtLetters(a + b, i);
    if i < |a| {
      AtLetters(a, i);
      if i + 3 > |a| {
        assert (a + b)[|a| - 1] == SOH;
      }
    } else {
      AtLetters(b, i - |a|);
    }
  }

  lemma ContainsSplit(a: string, b: string)
    requires a == "" || a[|a| - 1] == SOH
    ensures Contains(a + b, CHECK) <==> Contains(a, CHECK) || Contains(b, CHECK)
  {
    hide At;
    forall i: nat ensures At(a + b, i, CHECK) <==> if i < |a| then At(a, i, CHECK) else At(b, i - |a|, CHECK) {
      AtSplit(a, b, i);
    }
    if Contains(a, CHECK) {
      var i: nat :| At(a, i, CHECK);
      AtLetters(a, i);
      assert At(a + b, i, CHECK);
    }
    if Contains(b, CHECK) {
      var i: nat :| At(b, i, CHECK);
      assert At(a + b, i + |a|, CHECK);
    }
  }

  predicate Closed(s: string) { s == "" || s[|s| - 1] == SOH }

  lemma {:induction false} BodyClosed(fields: Fields, tags: seq<Tag>)
    requires forall t :: t in tags ==> t in fields
    ensures Closed(Body(fields, tags))
  {
    if tags != [] {
      var n := |tags| - 1;
      BodyClosed(fields, tags[..n]);
      assert Closed(Piece(fields, tags[n]));
    }
  }

  /** "10=" occurs among the entries exactly when one of them mentions it. */
  ghost predicate SomeMention(fields: Fields, tags: seq<Tag>)
    requires forall t :: t in tags ==> t in fields
  {
    exists i :: 0 <= i < |tags| && !Framing(tags[i]) && MentionsCheck(tags[i], fields[tags[i]])
  }

  lemma PieceMentions(fields: Fields, t: Tag)
    requires t in fields
    ensures Contains(Piece(fields, t), CHECK) <==> !Framing(t) && MentionsCheck(t, fields[t])
  {
    EntryMentions(t, fields[t]);
  }

  lemma {:induction false} BodyMentions(fields: Fields, tags: seq<Tag>)
    requires forall t :: t in tags ==> t in fields
    ensures Contains(Body(fields, tags), CHECK) <==> SomeMention(fields, tags)
  {
    hide Contains, MentionsCheck, Piece, Framing;
    if tags == [] {
      ContainsNone();
    } else {
      var n := |tags| - 1;
      var front := tags[..n];
      BodyMentions(fields, front);
      BodyClosed(fields, front);
      PieceMentions(fields, tags[n]);
      ContainsSplit(Body(fields, front), Piece(fields, tags[n]));
      if SomeMention(fields, front) {
        var i :| 0 <= i < n && !Framing(front[i]) && MentionsCheck(front[i], fields[front[i]]);
        assert tags[i] == front[i];
      }
      if SomeMention(fields, tags) {
        var i :| 0 <= i < |tags| && !Framing(tags[i]) && MentionsCheck(tags[i], fields[tags[i]]);
        assert i < n ==> front[i] == tags[i];
      }
    }
  }

  lemma ContainsNone()
    ensures !Contains("", CHECK)
  {
  }

  lemma NoEqualsNoCheck(s: string)
    requires '=' !in s
    ensures !Contains(s, CHECK)
  {
    forall i: nat ensures !At(s, i, CHECK) {
      AtLetters(s, i);
    }
  }

  /** The two entries in front of the body never mention it. */
  lemma FrontMentions(length: nat)
    ensures var front := Entry(BEGIN_STRING, VERSION) + Entry(BODY_LENGTH, ToString(length));
            Closed(front) && !Contains(front, CHECK)
  {
    var a, b := Entry(BEGIN_STRING, VERSION), Entry(BODY_LENGTH, ToString(length));
    assert Closed(a) && Closed(b);
    NoEqualsNoCheck(VERSION);
    EntryMentions(BEGIN_STRING, VERSION);
    assert '=' !in ToString(length);
    NoEqualsNoCheck(ToString(length));
    EntryMentions(BODY_LENGTH, ToString(length));
    ContainsSplit(a, b);
  }

  /** Some field's tag ends in 10, or some value contains "10=". */
  ghost predicate Ambiguous(fields: Fields) {
    exists t :: t in fields && !Framing(t) && MentionsCheck(t, fields[t])
  }

  lemma HeaderMentions(fields: Fields)
    ensures Contains(HeaderOf(fields), CHECK) <==> Ambiguous(fields)
    ensures Closed(HeaderOf(fields))
  {
    hide Contains, MentionsCheck, Entry, Framing, Ascending, Body;
    var tags := Ascending(fields.Keys);
    var front := Entry(BEGIN_STRING, VERSION) + Entry(BODY_LENGTH, ToString(|BodyOf(fields)|));
    FrontMentions(|BodyOf(fields)|);
    BodyMentions(fields, tags);
    BodyClosed(fields, tags);
    ContainsSplit(front, BodyOf(fields));
    assert HeaderOf(fields) == front + BodyOf(fields);
    if Ambiguous(fields) {
      var t :| t in fields && !Framing(t) && MentionsCheck(t, fields[t]);
      assert t in tags;
      var i :| 0 <= i < |tags| && tags[i] == t;
    }
  }

  /** The receiver sums exactly the checksummed part if and only if the message is unambiguous. */
  lemma StopsAtTrailerIff(fields: Fields)
    ensures Stop(fields) == |HeaderOf(fields)| <==> !Ambiguous(fields)
  {
    hide HeaderOf, Serialized, FindWord, At, Ambiguous, Closed;
    var h, raw := HeaderOf(fields), Serialized(fields);
    HeaderMentions(fields);
    TrailerAt(fields);
    FindWordFirst(raw, CHECK);
    StopIsFind(fields);
    forall i: nat | i < |h| ensures At(raw, i, CHECK) <==> At(h, i, CHECK) {
      AtHeader(fields, i);
    }
    if Contains(h, CHECK) {
      var i: nat :| At(h, i, CHECK);
      AtLetters(h, i);
    } else {
      FindWordIs(raw, CHECK, |h|);
    }
  }

  lemma AtHeader(fields: Fields, i: nat)
    requires i < |HeaderOf(fields)|
    ensures At(Serialized(fields), i, CHECK) <==> At(HeaderOf(fields), i, CHECK)
  {
    hide HeaderOf, At, Entry;
    HeaderMentions(fields);
    AtSplit(HeaderOf(fields), Entry(CHECK_SUM, ChecksumText(HeaderOf(fields))), i);
  }

  /** A complete message whose tags and values do not mention "10=" is accepted by its receiver. */
  lemma UnambiguousIsAccepted(fields: Fields, sender: string, target: string)
    requires SeparatorFree(fields) && !Ambiguous(fields)
    ensures Accepted(fields, sender, target) <==> Addressed(fields, sender, target)
  {
    hide HeaderOf, Accepted, Addressed, Ambiguous;
    AcceptedIff(fields, sender, target);
    StopsAtTrailerIff(fields);
    assert HeaderOf(fields)[|HeaderOf(fields)|..] == "";
  }

  // ---- messages the receiver turns away -------------------------------------

  /** When only the last tag mentions "10=", by its own digits, the fate of the message hangs on the
      bytes of that one value. */
  lemma TrailingTenTag(fields: Fields, t: Tag, sender: string, target: string)
    requires SeparatorFree(fields) && Addressed(fields, sender, target)
    requires t in fields && !Framing(t) && EndsInTen(t) && forall u :: u in fields ==> u <= t
    requires !Ambiguous(fields - {t})
    ensures Accepted(fields, sender, target) <==> (159 + ByteSum(fields[t])) % 256 == 0
  {
    hide HeaderOf, Accepted, Addressed, Ambiguous, FindWord, ByteSum, EndsInTen, SeparatorFree;
    AcceptedIff(fields, sender, target);
    StopAtLastTag(fields, t);
    SumOfLastTag(fields[t]);
  }

  lemma SumOfLastTag(value: string)
    ensures ByteSum(CHECK + value + [SOH]) == 159 + ByteSum(value)
  {
    ByteSumConcat(CHECK + value, [SOH]);
    ByteSumConcat(CHECK, value);
    assert CHECK[..2][..1] == "1" && CHECK[..2] == "10";
    assert ByteSum("1") == 49;
    assert ByteSum("10") == 97;
    assert [SOH][..0] == "";
  }

  /** The part of the header before the last tag's entry. */
  function BeforeLast(fields: Fields, t: Tag): string {
    var front := Ascending(fields.Keys - {t});
    Entry(BEGIN_STRING, VERSION) + Entry(BODY_LENGTH, ToString(|BodyOf(fields)|)) + Body(fields, front)
  }

  lemma BodySplits(fields: Fields, t: Tag)
    requires t in fields && !Framing(t) && forall u :: u in fields ==> u <= t
    ensures BodyOf(fields) == Body(fields, Ascending(fields.Keys - {t})) + Entry(t, fields[t])
  {
    BodyTail(fields, t);
    hide Entry, Ascending, Body, BodyOf;
  }

  lemma HeaderSplits(fields: Fields, t: Tag)
    requires t in fields && !Framing(t) && forall u :: u in fields ==> u <= t
    ensures HeaderOf(fields) == BeforeLast(fields, t) + Entry(t, fields[t])
  {
    hide Entry, ToString, TagText, Ascending, Body, BodyOf, Framing;
    BodySplits(fields, t);
    var front := Entry(BEGIN_STRING, VERSION) + Entry(BODY_LENGTH, ToString(|BodyOf(fields)|));
    var body := Body(fields, Ascending(fields.Keys - {t}));
    assert front + (body + Entry(t, fields[t])) == front + body + Entry(t, fields[t]);
  }

  lemma BeforeLastMentions(fields: Fields, t: Tag)
    requires t in fields && !Ambiguous(fields - {t})
    ensures Closed(BeforeLast(fields, t)) && !Contains(BeforeLast(fields, t), CHECK)
  {
    hide Contains, MentionsCheck, Entry, Framing, Ascending, Body, BodyOf;
    var tags := Ascending(fields.Keys - {t});
    var front := Entry(BEGIN_STRING, VERSION) + Entry(BODY_LENGTH, ToString(|BodyOf(fields)|));
    FrontMentions(|BodyOf(fields)|);
    BodyClosed(fields, tags);
    BodyMentions(fields, tags);
    forall i | 0 <= i < |tags| && !Framing(tags[i]) ensures !MentionsCheck(tags[i], fields[tags[i]]) {
      assert tags[i] in tags && tags[i] in fields - {t};
    }
    ContainsSplit(front, Body(fields, tags));
  }

  /** The first "10=" behind a closed text without one, in the entry of a tag that ends in 10. */
  lemma FirstInEntry(before: string, t: Tag, value: string, i: nat)
    requires Closed(before) && !Contains(before, CHECK) && EndsInTen(t)
    ensures var k := |before| + |TagText(t)| - 2;
            (i < k ==> !At(before + Entry(t, value), i, CHECK)) && (i == k ==> At(before + Entry(t, value), i, CHECK))
  {
    hide At, Entry, ToString, TagText, EndsInTen;
    TagEnd(t);
    AtSplit(before, Entry(t, value), i);
    if i >= |before| {
      AtEntry(t, value, i - |before|);
    }
  }

  lemma EntryEnd(t: Tag, value: string)
    requires EndsInTen(t)
    ensures var n := |TagText(t)|; 2 <= n < |Entry(t, value)| && Entry(t, value)[n - 2..] == CHECK + value + [SOH]
  {
    TagEnd(t);
    var tag := TagText(t);
    assert tag == tag[..|tag| - 2] + "10";
    assert Entry(t, value) == tag[..|tag| - 2] + (CHECK + value + [SOH]);
  }

  lemma StopAtLastTag(fields: Fields, t: Tag)
    requires t in fields && !Framing(t) && EndsInTen(t) && forall u :: u in fields ==> u <= t
    requires !Ambiguous(fields - {t})
    ensures HeaderOf(fields)[Stop(fields)..] == CHECK + fields[t] + [SOH]
  {
    hide HeaderOf, Serialized, Entry, At, FindWord, BeforeLast, Contains, EndsInTen, Ambiguous, Closed;
    hide ToString, TagText;
    var before, entry, raw := BeforeLast(fields, t), Entry(t, fields[t]), Serialized(fields);
    HeaderSplits(fields, t);
    BeforeLastMentions(fields, t);
    EntryEnd(t, fields[t]);
    var k := |before| + |TagText(t)| - 2;
    forall i: nat | i <= k ensures At(raw, i, CHECK) <==> i == k {
      AtHeader(fields, i);
      FirstInEntry(before, t, fields[t], i);
    }
    FindWordIs(raw, CHECK, k);
    StopIsFind(fields);
    assert (before + entry)[k..] == entry[|TagText(t)| - 2..];
  }

  const TURNED_AWAY: Fields :=
    map[34 := "7", 35 := "0", 49 := "CITY", 52 := "20240102-03:04:05", 56 := "DESK", 5010 := ""]

  /** A heartbeat with a user-defined tag 5010 and no text in it: complete, and turned away. */
  lemma CompleteYetRejected()
    ensures SeparatorFree(TURNED_AWAY) && Addressed(TURNED_AWAY, "DESK", "CITY")
    ensures !Accepted(TURNED_AWAY, "DESK", "CITY")
  {
    hide Accepted;
    var fields := TURNED_AWAY;
    var others := fields - {5010};
    forall t | t in others ensures !MentionsCheck(t, others[t]) {
      NoEqualsNoCheck(others[t]);
    }
    TrailingTenTag(fields, 5010, "DESK", "CITY");
  }
}
