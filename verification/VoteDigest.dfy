/** The digest of a proposal file's votes, `computeVoteDigestHash`: the JSON text it hashes and what it pins of them. */
module VoteDigest {
  import opened Bytes
  import opened Lex
  import opened Seqs
  import opened VoteMessage
  import opened Witness
  import opened YesVotes

  /** The choice as the file spells it. */
  function WordOf(vote: byte): seq<byte> {
    match VoteWord(vote) case Some(word) => word case None => []
  }

  /** One vote in JSON: key, choice, timestamp and signature, but no Merkle path. */
  function Record(v: Vote): seq<byte> {
    Ascii("{")
    + JsonFields([
        (Ascii("pubkey"), ZERO_X + Hex(v.pubkey)),
        (Ascii("vote"), WordOf(v.vote)),
        (Ascii("timestamp"), v.timestamp),
        (Ascii("signature"), ZERO_X + Hex(v.sig))])
    + Ascii("}")
  }

  /** The votes in JSON, each followed by what stands between it and the next, or by the end. */
  function Records(votes: seq<Vote>): seq<byte> {
    if votes == [] then Ascii("]")
    else Record(votes[0]) + (if |votes| == 1 then [] else Ascii(",")) + Records(votes[1..])
  }

  function Text(votes: seq<Vote>): seq<byte> {
    Ascii("[") + Records(ByKey(votes))
  }

  function Digest(votes: seq<Vote>, blake: Hasher): Bytes32 {
    blake(Text(votes))
  }

  lemma OneRecord(v: Vote)
    ensures Records([v]) == Record(v) + Ascii("]")
  {
    hide Record, Ascii;
    var rest := [v][1..];
    assert rest == [];
    assert Record(v) + [] == Record(v);
  }

  // ---- what the digest pins ----

  /** What is recorded of a vote. */
  datatype Entry = Entry(pubkey: Pubkey, vote: byte, timestamp: seq<byte>, sig: Sig)

  function EntryOf(v: Vote): Entry { Entry(v.pubkey, v.vote, v.timestamp, v.sig) }

  function Entries(votes: seq<Vote>): (es: seq<Entry>)
    ensures |es| == |votes| && forall i :: 0 <= i < |votes| ==> es[i] == EntryOf(votes[i])
  {
    if votes == [] then [] else [EntryOf(votes[0])] + Entries(votes[1..])
  }

  /** An escape is recognised by its first byte, and ends where it ends. */
  lemma EscapeCut(c: byte, c': byte, r: seq<byte>, r': seq<byte>)
    requires JsonEscape(c) + r == JsonEscape(c') + r'
    ensures c == c' && r == r'
  {
    var (e, e') := (JsonEscape(c), JsonEscape(c'));
    EscapeForm(c);
    EscapeForm(c');
    assert (e + r)[0] == e[0] && (e' + r')[0] == e'[0];
    if e[0] == 0x5c {
      assert (e + r)[1] == e[1] && (e' + r')[1] == e'[1];
      if e[1] == 0x75 {
        CancelFirst(e, r, e', r');
        assert e[4] == e'[4] && e[5] == e'[5];
      }
    }
    CancelFirst(e, r, e', r');
  }

  /** The three forms of an escape. */
  lemma EscapeForm(c: byte)
    ensures var e := JsonEscape(c);
            (|e| == 1 && e[0] == c != 0x5c && c != QUOTE && c >= 0x20)
            || (|e| == 2 && e[0] == 0x5c && e[1] != 0x75
                && c == match e[1] case 0x22 => 0x22 case 0x5c => 0x5c case 0x62 => 8 case 0x74 => 9 case 0x6e => 10
                                   case 0x66 => 12 case _ => 13)
            || (|e| == 6 && e[0] == 0x5c && e[1] == 0x75 && c < 0x20
                && e[4] == HexDigit(c / 16) && e[5] == HexDigit(c % 16))
  {
  }

  /** A JSON string ends at its closing quote. */
  lemma {:induction false} StringCut(s: seq<byte>, s': seq<byte>, r: seq<byte>, r': seq<byte>)
    requires JsonChars(s) + ([QUOTE] + r) == JsonChars(s') + ([QUOTE] + r')
    ensures s == s' && r == r'
  {
    hide JsonEscape;
    StringHead(s, r);
    StringHead(s', r');
    if s == [] || s' == [] {
      CancelFirst([], [QUOTE] + r, [], [QUOTE] + r');
      CancelFirst([QUOTE], r, [QUOTE], r');
    } else {
      Assoc(JsonEscape(s[0]), JsonChars(s[1..]), [QUOTE] + r);
      Assoc(JsonEscape(s'[0]), JsonChars(s'[1..]), [QUOTE] + r');
      EscapeCut(s[0], s'[0], JsonChars(s[1..]) + ([QUOTE] + r), JsonChars(s'[1..]) + ([QUOTE] + r'));
      StringCut(s[1..], s'[1..], r, r');
      HeadTail(s);
      HeadTail(s');
    }
  }

  /** Only the closing quote is a quote without a backslash before it. */
  lemma StringHead(s: seq<byte>, r: seq<byte>)
    ensures (JsonChars(s) + ([QUOTE] + r))[0] == QUOTE <==> s == []
  {
    hide JsonEscape;
    if s != [] {
      EscapeForm(s[0]);
    }
  }

  lemma FieldCut(key: seq<byte>, value: seq<byte>, value': seq<byte>, r: seq<byte>, r': seq<byte>)
    requires Field(key, value) + r == Field(key, value') + r'
    ensures value == value' && r == r'
  {
    hide JsonChars, Ascii;
    var p := JsonString(key) + Ascii(":");
    FieldParts(p, [QUOTE], JsonChars(value), r);
    FieldParts(p, [QUOTE], JsonChars(value'), r');
    CancelFirst(p + [QUOTE], JsonChars(value) + ([QUOTE] + r), p + [QUOTE], JsonChars(value') + ([QUOTE] + r'));
    StringCut(value, value', r, r');
  }

  lemma FieldParts<T>(p: seq<T>, q: seq<T>, chars: seq<T>, r: seq<T>)
    ensures p + (q + chars + q) + r == (p + q) + (chars + (q + r))
  {
  }

  /** A record and what follows it, field by field. */
  lemma RecordParts(v: Vote, r: seq<byte>)
    ensures Record(v) + r
         == Ascii("{") + (Field(Ascii("pubkey"), ZERO_X + Hex(v.pubkey)) + (Ascii(",")
            + (Field(Ascii("vote"), WordOf(v.vote)) + (Ascii(",")
            + (Field(Ascii("timestamp"), v.timestamp) + (Ascii(",")
            + (Field(Ascii("signature"), ZERO_X + Hex(v.sig)) + (Ascii("}") + r))))))))
  {
    hide Ascii, Hex, WordOf, Field;
    var (a, b) := ((Ascii("pubkey"), ZERO_X + Hex(v.pubkey)), (Ascii("vote"), WordOf(v.vote)));
    var (c, d) := ((Ascii("timestamp"), v.timestamp), (Ascii("signature"), ZERO_X + Hex(v.sig)));
    FourFields(a, b, c, d);
    Chained(Ascii("{"), Field(a.0, a.1), Ascii(","), Field(b.0, b.1), Field(c.0, c.1), Field(d.0, d.1), Ascii("}"), r);
  }

  lemma Chained<T>(o: seq<T>, a: seq<T>, m: seq<T>, b: seq<T>, c: seq<T>, d: seq<T>, e: seq<T>, r: seq<T>)
    ensures o + (a + m + (b + m + (c + m + d))) + e + r
         == o + (a + (m + (b + (m + (c + (m + (d + (e + r))))))))
  {
  }

  lemma FourFields(a: (seq<byte>, seq<byte>), b: (seq<byte>, seq<byte>), c: (seq<byte>, seq<byte>),
      d: (seq<byte>, seq<byte>))
    ensures JsonFields([a, b, c, d])
         == Field(a.0, a.1) + Ascii(",") + (Field(b.0, b.1) + Ascii(",") + (Field(c.0, c.1) + Ascii(",")
            + Field(d.0, d.1)))
  {
    assert JsonFields([d]) == Field(d.0, d.1);
    hide JsonFields, JsonString, Field, Ascii;
    FieldThenMore(c, [d]);
    FieldThenMore(b, [c] + [d]);
    FieldThenMore(a, [b] + ([c] + [d]));
    assert [a] + ([b] + ([c] + [d])) == [a, b, c, d];
  }

  predicate ValidChoice(v: Vote) { VoteWord(v.vote).Some? }

  lemma Choices(v: Vote)
    ensures ValidChoice(v) <==> 1 <= v.vote <= 3
  {
  }

  lemma WordsDiffer(vote: byte, vote': byte)
    requires VoteWord(vote).Some? && VoteWord(vote').Some? && WordOf(vote) == WordOf(vote')
    ensures vote == vote'
  {
    WordsBegin(vote, vote', [], []);
  }

  /** A record ends where it ends, and says of the vote what is recorded. */
  lemma RecordCut(v: Vote, v': Vote, r: seq<byte>, r': seq<byte>)
    requires ValidChoice(v) && ValidChoice(v') && Record(v) + r == Record(v') + r'
    ensures EntryOf(v) == EntryOf(v') && r == r'
  {
    hide Ascii, Hex, Field, Record, WordOf;
    RecordParts(v, r);
    RecordParts(v', r');
    var (m, o, e) := (Ascii(","), Ascii("{"), Ascii("}"));
    var (k, k') := (ZERO_X + Hex(v.pubkey), ZERO_X + Hex(v'.pubkey));
    var (g, g') := (ZERO_X + Hex(v.sig), ZERO_X + Hex(v'.sig));
    var (x4, x4') := (Field(Ascii("signature"), g) + (e + r), Field(Ascii("signature"), g') + (e + r'));
    var (x3, x3') := (Field(Ascii("timestamp"), v.timestamp) + (m + x4),
      Field(Ascii("timestamp"), v'.timestamp) + (m + x4'));
    var (x2, x2') := (Field(Ascii("vote"), WordOf(v.vote)) + (m + x3),
      Field(Ascii("vote"), WordOf(v'.vote)) + (m + x3'));
    var (x1, x1') := (Field(Ascii("pubkey"), k) + (m + x2), Field(Ascii("pubkey"), k') + (m + x2'));
    CancelFirst(o, x1, o, x1');
    FieldCut(Ascii("pubkey"), k, k', m + x2, m + x2');
    CancelFirst(m, x2, m, x2');
    FieldCut(Ascii("vote"), WordOf(v.vote), WordOf(v'.vote), m + x3, m + x3');
    CancelFirst(m, x3, m, x3');
    FieldCut(Ascii("timestamp"), v.timestamp, v'.timestamp, m + x4, m + x4');
    CancelFirst(m, x4, m, x4');
    FieldCut(Ascii("signature"), g, g', e + r, e + r');
    CancelFirst(e, r, e, r');
    CancelFirst(ZERO_X, Hex(v.pubkey), ZERO_X, Hex(v'.pubkey));
    CancelFirst(ZERO_X, Hex(v.sig), ZERO_X, Hex(v'.sig));
    HexInjective(v.pubkey, v'.pubkey);
    HexInjective(v.sig, v'.sig);
    WordsDiffer(v.vote, v'.vote);
  }

  lemma RecordBegins(v: Vote)
    ensures |Record(v)| > 0 && Record(v)[0] == 0x7b
  {
    hide JsonFields, Hex, WordOf, Ascii;
    OneCharacter();
  }

  lemma OneCharacter()
    ensures Ascii("{") == [0x7b] && Ascii("[") == [0x5b] && Ascii("]") == [0x5d] && Ascii(",") == [0x2c]
  {
  }

  lemma RecordsBegin(votes: seq<Vote>)
    ensures |Records(votes)| > 0 && (votes == [] <==> Records(votes)[0] == 0x5d)
  {
    hide Record, Ascii;
    OneCharacter();
    if votes != [] {
      RecordBegins(votes[0]);
    }
  }

  lemma {:induction false} RecordsCut(votes: seq<Vote>, votes': seq<Vote>)
    requires forall v <- votes :: ValidChoice(v)
    requires forall v <- votes' :: ValidChoice(v)
    requires Records(votes) == Records(votes')
    ensures Entries(votes) == Entries(votes')
  {
    hide Record, EntryOf, Ascii, ValidChoice;
    RecordsBegin(votes);
    RecordsBegin(votes');
    if votes != [] {
      var (m, m') := (if |votes| == 1 then [] else Ascii(","), if |votes'| == 1 then [] else Ascii(","));
      Assoc(Record(votes[0]), m, Records(votes[1..]));
      Assoc(Record(votes'[0]), m', Records(votes'[1..]));
      RecordCut(votes[0], votes'[0], m + Records(votes[1..]), m' + Records(votes'[1..]));
      RecordsBegin(votes[1..]);
      RecordsBegin(votes'[1..]);
      Separators(votes, votes');
      CancelFirst(m, Records(votes[1..]), m', Records(votes'[1..]));
      RecordsCut(votes[1..], votes'[1..]);
    }
  }

  /** After a record a comma says that another follows. */
  lemma Separators(votes: seq<Vote>, votes': seq<Vote>)
    requires votes != [] && votes' != []
    requires (if |votes| == 1 then [] else Ascii(",")) + Records(votes[1..])
          == (if |votes'| == 1 then [] else Ascii(",")) + Records(votes'[1..])
    ensures |votes| == 1 <==> |votes'| == 1
  {
    hide Record, Records, Ascii;
    RecordsBegin(votes[1..]);
    RecordsBegin(votes'[1..]);
    OneCharacter();
    HeadOf(if |votes| == 1 then [] else Ascii(","), Records(votes[1..]));
    HeadOf(if |votes'| == 1 then [] else Ascii(","), Records(votes'[1..]));
  }

  lemma HeadOf<T>(a: seq<T>, b: seq<T>)
    requires |b| > 0
    ensures (a + b)[0] == if a == [] then b[0] else a[0]
  {
  }

  /**
   * Files with the same digest, short of a collision of these two texts, record the same votes in the same order of
   * keys: key, choice, timestamp and signature of each. Of the Merkle paths the digest says nothing.
   */
  lemma DigestPins(votes: seq<Vote>, votes': seq<Vote>, blake: Hasher)
    requires forall v <- votes :: 1 <= v.vote <= 3
    requires forall v <- votes' :: 1 <= v.vote <= 3
    requires Digest(votes, blake) == Digest(votes', blake)
    requires blake(Text(votes)) == blake(Text(votes')) ==> Text(votes) == Text(votes')
    ensures var (a, b) := (ByKey(votes), ByKey(votes'));
            |a| == |b|
            && forall i :: 0 <= i < |a| ==> a[i].pubkey == b[i].pubkey && a[i].vote == b[i].vote
                                            && a[i].timestamp == b[i].timestamp && a[i].sig == b[i].sig
  {
    hide Records, Ascii, ByKey, ValidChoice, Entries;
    CancelFirst(Ascii("["), Records(ByKey(votes)), Ascii("["), Records(ByKey(votes')));
    forall v: Vote
      ensures v in ByKey(votes) ==> ValidChoice(v)
      ensures v in ByKey(votes') ==> ValidChoice(v)
    {
      Choices(v);
      ByKeyKeeps(votes, v);
      ByKeyKeeps(votes', v);
    }
    RecordsCut(ByKey(votes), ByKey(votes'));
    assert forall i :: 0 <= i < |ByKey(votes)| ==> EntryOf(ByKey(votes)[i]) == Entries(ByKey(votes))[i];
  }

  /** Paths are not part of the text. */
  lemma PathsAreNotPinned(v: Vote, leafIndex: u32, proof: seq<Bytes32>)
    ensures Record(v.(leafIndex := leafIndex, proof := proof)) == Record(v)
  {
  }
}
