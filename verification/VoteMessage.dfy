/** The canonical JSON a validator signs for a vote, on chain and off. */
module VoteMessage {
  import opened Bytes
  import opened Lex
  import opened Seqs

  const ERR_INVALID_WITNESS := 3

  /** The bytes of an ASCII literal. */
  function Ascii(s: string): (b: seq<byte>)
    ensures |b| == |s|
  {
    if s == "" then [] else [(s[0] as int) % 256] + Ascii(s[1..])
  }

  const QUOTE: byte := 0x22
  const ZERO_X: seq<byte> := [0x30, 0x78]

  /** ASCII letters and digits, and the five punctuation marks of an ISO 8601 time. */
  predicate TimestampChar(b: byte) {
    0x30 <= b <= 0x39 || 0x41 <= b <= 0x5a || 0x61 <= b <= 0x7a
    || b == 0x2d || b == 0x3a || b == 0x2e || b == 0x2b
  }

  predicate TimestampOk(t: seq<byte>) {
    forall i :: 0 <= i < |t| ==> TimestampChar(t[i])
  }

  function VoteWord(vote: byte): Option<seq<byte>> {
    if vote == 1 then Some(Ascii("yes"))
    else if vote == 2 then Some(Ascii("no"))
    else if vote == 3 then Some(Ascii("abstain"))
    else None
  }

  const HEAD := "{\"domain\":\"ckb-firewall:vote\",\"proposalIdHash\":\""
  const TO_VOTE := "\",\"vote\":\""
  const TO_TIMESTAMP := "\",\"timestamp\":\""
  const TO_PUBKEY := "\",\"pubkey\":\""
  const TAIL := "\"}"

  /** The bytes that are hashed and signed. */
  function Canonical(idHash: Bytes32, word: seq<byte>, timestamp: seq<byte>, pubkey: Pubkey): seq<byte> {
    Ascii(HEAD) + (ZERO_X + Hex(idHash)) + Ascii(TO_VOTE) + word + Ascii(TO_TIMESTAMP) + timestamp
    + Ascii(TO_PUBKEY) + (ZERO_X + Hex(pubkey)) + Ascii(TAIL)
  }

  function SigningMessage(idHash: Bytes32, vote: byte, timestamp: seq<byte>, pubkey: Pubkey,
      blake: Hasher): Result<Bytes32, int> {
    if !TimestampOk(timestamp) then Err(ERR_INVALID_WITNESS)
    else
      match VoteWord(vote)
      case None => Err(ERR_INVALID_WITNESS)
      case Some(word) => Ok(blake(Canonical(idHash, word, timestamp, pubkey)))
  }

  /** `hex_push`. */
  method HexPush(start: seq<byte>, bytes: seq<byte>) returns (out: seq<byte>)
    ensures out == start + (ZERO_X + Hex(bytes))
  {
    out := start + Ascii("0x");
    assert Ascii("0x") == ZERO_X;
    for i := 0 to |bytes|
      invariant out == start + (ZERO_X + Hex(bytes[..i]))
    {
      DigitOfTable(bytes[i] / 16);
      DigitOfTable(bytes[i] % 16);
      out := out + [HEX_DIGITS[bytes[i] / 16] as int];
      out := out + [HEX_DIGITS[bytes[i] % 16] as int];
      assert bytes[..i + 1] == bytes[..i] + [bytes[i]];
      HexAppend(bytes[..i], [bytes[i]]);
      assert Hex([bytes[i]]) == [HexDigit(bytes[i] / 16), HexDigit(bytes[i] % 16)];
    }
    assert bytes[..|bytes|] == bytes;
  }

  /** `vote_signing_message`: filter the timestamp, append to the buffer, hash. */
  method VoteSigningMessage(idHash: Bytes32, vote: byte, timestamp: seq<byte>, pubkey: Pubkey, blake: Hasher)
    returns (r: Result<Bytes32, int>)
    ensures r == SigningMessage(idHash, vote, timestamp, pubkey, blake)
  {
    hide Ascii, Hex;
    for i := 0 to |timestamp|
      invariant forall j :: 0 <= j < i ==> TimestampChar(timestamp[j])
    {
      var b := timestamp[i] as char;
      if !('0' <= b <= '9' || 'A' <= b <= 'Z' || 'a' <= b <= 'z')
         && b != '-' && b != ':' && b != '.' && b != 'T' && b != 'Z' && b != '+' {
        return Err(ERR_INVALID_WITNESS);
      }
    }
    var canonical := Ascii(HEAD);
    canonical := HexPush(canonical, idHash);
    canonical := canonical + Ascii(TO_VOTE);
    match vote {
      case 1 => canonical := canonical + Ascii("yes");
      case 2 => canonical := canonical + Ascii("no");
      case 3 => canonical := canonical + Ascii("abstain");
      case _ => return Err(ERR_INVALID_WITNESS);
    }
    canonical := canonical + Ascii(TO_TIMESTAMP);
    canonical := canonical + timestamp;
    canonical := canonical + Ascii(TO_PUBKEY);
    canonical := HexPush(canonical, pubkey);
    canonical := canonical + Ascii(TAIL);
    return Ok(blake(canonical));
  }

  // ---- the preimage is unambiguous ----

  /** Equal preimages come from equal proposal, vote, timestamp and key. */
  lemma CanonicalInjective(
      idHash: Bytes32, vote: byte, timestamp: seq<byte>, pubkey: Pubkey,
      idHash': Bytes32, vote': byte, timestamp': seq<byte>, pubkey': Pubkey)
    requires VoteWord(vote).Some? && VoteWord(vote').Some?
    requires Canonical(idHash, VoteWord(vote).value, timestamp, pubkey)
          == Canonical(idHash', VoteWord(vote').value, timestamp', pubkey')
    ensures idHash == idHash' && vote == vote' && timestamp == timestamp' && pubkey == pubkey'
  {
    hide Ascii, Hex, VoteWord;
    var (w, w') := (VoteWord(vote).value, VoteWord(vote').value);
    var (h, h') := (ZERO_X + Hex(idHash), ZERO_X + Hex(idHash'));
    var (k, k') := (ZERO_X + Hex(pubkey), ZERO_X + Hex(pubkey'));
    var (p, p') := (Ascii(HEAD) + h + Ascii(TO_VOTE), Ascii(HEAD) + h' + Ascii(TO_VOTE));
    var (c, d, e) := (Ascii(TO_TIMESTAMP), Ascii(TO_PUBKEY), Ascii(TAIL));
    CancelLast(p + w + c + timestamp + d + k, e, p' + w' + c + timestamp' + d + k', e);
    CancelLast(p + w + c + timestamp + d, k, p' + w' + c + timestamp' + d, k');
    CancelLast(p + w + c + timestamp, d, p' + w' + c + timestamp', d);
    ThreeParts(p, w + c, timestamp, p', w' + c, timestamp', w, w', c);
    WordsBegin(vote, vote', c + timestamp, c + timestamp');
    CancelFirst(w + c, timestamp, w' + c, timestamp');
    CancelLast(Ascii(HEAD) + h, Ascii(TO_VOTE), Ascii(HEAD) + h', Ascii(TO_VOTE));
    CancelFirst(Ascii(HEAD), h, Ascii(HEAD), h');
    CancelFirst(ZERO_X, Hex(idHash), ZERO_X, Hex(idHash'));
    CancelFirst(ZERO_X, Hex(pubkey), ZERO_X, Hex(pubkey'));
    HexInjective(idHash, idHash');
    HexInjective(pubkey, pubkey');
  }

  /** Drops an equally long beginning and regroups what follows it. */
  lemma ThreeParts<T>(p: seq<T>, wc: seq<T>, t: seq<T>, p': seq<T>, wc': seq<T>, t': seq<T>, w: seq<T>, w': seq<T>,
      c: seq<T>)
    requires wc == w + c && wc' == w' + c && |p| == |p'|
    requires p + w + c + t == p' + w' + c + t'
    ensures p == p' && wc + t == wc' + t' && w + (c + t) == w' + (c + t')
  {
    assert p + w + c + t == p + (w + (c + t)) && p' + w' + c + t' == p' + (w' + (c + t'));
    CancelFirst(p, w + (c + t), p', w' + (c + t'));
    assert wc + t == w + (c + t) && wc' + t' == w' + (c + t');
  }

  /** The three words begin with different letters, so what follows a word does not confuse them. */
  lemma WordsBegin(vote: byte, vote': byte, rest: seq<byte>, rest': seq<byte>)
    requires VoteWord(vote).Some? && VoteWord(vote').Some?
    requires VoteWord(vote).value + rest == VoteWord(vote').value + rest'
    ensures vote == vote'
  {
    var (w, w') := (VoteWord(vote).value, VoteWord(vote').value);
    assert (w + rest)[0] == w[0] && (w' + rest')[0] == w'[0];
  }

  // ---- the off-chain form ----

  /** JSON string escaping of one ASCII code: quotes, backslashes and control characters. */
  function JsonEscape(c: byte): (e: seq<byte>) {
    if c == QUOTE then [0x5c, QUOTE]
    else if c == 0x5c then [0x5c, 0x5c]
    else if c == 0x08 then Ascii("\\b")
    else if c == 0x09 then Ascii("\\t")
    else if c == 0x0a then Ascii("\\n")
    else if c == 0x0c then Ascii("\\f")
    else if c == 0x0d then Ascii("\\r")
    else if c < 0x20 then Ascii("\\u00") + Hex([c])
    else [c]
  }

  /** Each code as RFC 8259 section 7 spells it, by its short form where it has one. */
  lemma EscapeTable(c: byte)
    ensures JsonEscape('"' as int) == Ascii("\\\"") && JsonEscape('\\' as int) == Ascii("\\\\")
    ensures JsonEscape(8) == Ascii("\\b") && JsonEscape(9) == Ascii("\\t") && JsonEscape(10) == Ascii("\\n")
    ensures JsonEscape(12) == Ascii("\\f") && JsonEscape(13) == Ascii("\\r")
    ensures c < 32 && c != 8 && c != 9 && c != 10 && c != 12 && c != 13 ==>
              JsonEscape(c) == Ascii("\\u00") + [HEX_DIGITS[c / 16] as int, HEX_DIGITS[c % 16] as int]
    ensures c >= 32 && c != '"' as int && c != '\\' as int ==> JsonEscape(c) == [c]
  {
    DigitOfTable(c / 16);
    DigitOfTable(c % 16);
    Nil([HexDigit(c / 16), HexDigit(c % 16)]);
  }

  function JsonString(s: seq<byte>): seq<byte> {
    [QUOTE] + JsonChars(s) + [QUOTE]
  }

  function JsonChars(s: seq<byte>): seq<byte> {
    if s == [] then [] else JsonEscape(s[0]) + JsonChars(s[1..])
  }

  /** `JSON.stringify` of an object whose fields are strings, in insertion order. */
  function JsonFields(fields: seq<(seq<byte>, seq<byte>)>): seq<byte> {
    if fields == [] then []
    else if |fields| == 1 then JsonString(fields[0].0) + Ascii(":") + JsonString(fields[0].1)
    else JsonString(fields[0].0) + Ascii(":") + JsonString(fields[0].1) + Ascii(",") + JsonFields(fields[1..])
  }

  /** The string `voteSigningMessage` of the CLI hashes; ids and keys are `0x` and lowercase hex. */
  function CliCanonical(idHash: Bytes32, word: seq<byte>, timestamp: seq<byte>, pubkey: Pubkey): seq<byte> {
    Ascii("{")
    + JsonFields([
        (Ascii("domain"), Ascii("ckb-firewall:vote")),
        (Ascii("proposalIdHash"), ZERO_X + Hex(idHash)),
        (Ascii("vote"), word),
        (Ascii("timestamp"), timestamp),
        (Ascii("pubkey"), ZERO_X + Hex(pubkey))])
    + Ascii("}")
  }

  predicate Plain(s: seq<byte>) {
    forall i :: 0 <= i < |s| ==> PlainByte(s[i])
  }

  /** A byte JSON leaves as it is. */
  predicate PlainByte(c: byte) {
    c >= 0x20 && c != QUOTE && c != 0x5c
  }

  lemma {:induction false} PlainIsUnescaped(s: seq<byte>)
    requires Plain(s)
    ensures JsonChars(s) == s
  {
    if s != [] {
      assert PlainByte(s[0]);
      PlainIsUnescaped(s[1..]);
      HeadTail(s);
    }
  }

  lemma {:induction false} HexIsPlain(b: seq<byte>)
    ensures Plain(Hex(b))
  {
    if b != [] {
      HexIsPlain(b[1..]);
    }
  }

  lemma {:induction false} AsciiAppend(s: string, t: string)
    ensures Ascii(s + t) == Ascii(s) + Ascii(t)
  {
    if s == "" {
      assert s + t == t;
    } else {
      assert (s + t)[1..] == s[1..] + t;
      AsciiAppend(s[1..], t);
    }
  }

  function Field(key: seq<byte>, value: seq<byte>): seq<byte> {
    JsonString(key) + Ascii(":") + JsonString(value)
  }

  const COLON_QUOTE: seq<byte> := [QUOTE, 0x3a, QUOTE]

  lemma PlainField(key: seq<byte>, value: seq<byte>)
    requires Plain(key) && Plain(value)
    ensures Field(key, value) == [QUOTE] + key + COLON_QUOTE + value + [QUOTE]
  {
    PlainIsUnescaped(key);
    PlainIsUnescaped(value);
    assert Ascii(":") == [0x3a];
    Quoted([QUOTE], key, [0x3a], value);
  }

  lemma Quoted<T>(q: seq<T>, key: seq<T>, colon: seq<T>, value: seq<T>)
    ensures (q + key + q) + colon + (q + value + q) == q + key + (q + colon + q) + value + q
  {
  }

  lemma {:induction false} LiteralIsPlain(s: string)
    requires forall i :: 0 <= i < |s| ==> 0x20 <= (s[i] as int) < 0x80 && s[i] != '"' && s[i] != '\\'
    ensures Plain(Ascii(s))
  {
    if s != "" {
      LiteralIsPlain(s[1..]);
    }
  }

  lemma AllPlain(idHash: Bytes32, vote: byte, timestamp: seq<byte>, pubkey: Pubkey)
    requires TimestampOk(timestamp) && VoteWord(vote).Some?
    ensures Plain(Ascii("domain")) && Plain(Ascii("ckb-firewall:vote")) && Plain(Ascii("proposalIdHash"))
    ensures Plain(Ascii("vote")) && Plain(Ascii("timestamp")) && Plain(Ascii("pubkey"))
    ensures Plain(ZERO_X + Hex(idHash)) && Plain(ZERO_X + Hex(pubkey))
    ensures Plain(VoteWord(vote).value) && Plain(timestamp)
  {
    hide Ascii, Hex;
    LiteralIsPlain("domain");
    LiteralIsPlain("ckb-firewall:vote");
    LiteralIsPlain("proposalIdHash");
    LiteralIsPlain("vote");
    LiteralIsPlain("timestamp");
    LiteralIsPlain("pubkey");
    LiteralIsPlain("yes");
    LiteralIsPlain("no");
    LiteralIsPlain("abstain");
    HexIsPlain(idHash);
    HexIsPlain(pubkey);
  }

  lemma Piece(s: string, t: string, u: string)
    requires s + t == u
    ensures Ascii(s) + Ascii(t) == Ascii(u)
  {
    AsciiAppend(s, t);
  }

  lemma HeadText()
    ensures Ascii("{") + Ascii("\"") + Ascii("domain") + Ascii("\":\"") + Ascii("ckb-firewall:vote")
            + Ascii("\"") + Ascii(",") + (Ascii("\"") + Ascii("proposalIdHash") + Ascii("\":\"")) == Ascii(HEAD)
  {
    hide Ascii;
    DomainText();
    Piece("\"", "proposalIdHash", "\"proposalIdHash");
    Piece("\"proposalIdHash", "\":\"", "\"proposalIdHash\":\"");
    Piece("{\"domain\":\"ckb-firewall:vote\",", "\"proposalIdHash\":\"", HEAD);
  }

  lemma DomainText()
    ensures Ascii("{") + Ascii("\"") + Ascii("domain") + Ascii("\":\"") + Ascii("ckb-firewall:vote") + Ascii("\"")
            + Ascii(",")
         == Ascii("{\"domain\":\"ckb-firewall:vote\",")
  {
    hide Ascii;
    Piece("{", "\"", "{\"");
    Piece("{\"", "domain", "{\"domain");
    Piece("{\"domain", "\":\"", "{\"domain\":\"");
    Piece("{\"domain\":\"", "ckb-firewall:vote", "{\"domain\":\"ckb-firewall:vote");
    Piece("{\"domain\":\"ckb-firewall:vote", "\"", "{\"domain\":\"ckb-firewall:vote\"");
    Piece("{\"domain\":\"ckb-firewall:vote\"", ",", "{\"domain\":\"ckb-firewall:vote\",");
  }

  lemma JoinText(key: string, text: string)
    requires text == "\",\"" + key + "\":\""
    ensures Ascii("\"") + Ascii(",") + (Ascii("\"") + Ascii(key) + Ascii("\":\"")) == Ascii(text)
  {
    hide Ascii;
    Piece("\"", ",", "\",");
    Piece("\"", key, "\"" + key);
    Piece("\"" + key, "\":\"", "\"" + key + "\":\"");
    assert "\"," + ("\"" + key + "\":\"") == text;
    Piece("\",", "\"" + key + "\":\"", text);
  }

  lemma Marks()
    ensures Ascii("\"") == [QUOTE] && Ascii("\":\"") == COLON_QUOTE
  {
  }

  lemma RegroupObject<T>(
      o: seq<T>, q1: seq<T>, v1: seq<T>, t: seq<T>, c: seq<T>, q2: seq<T>, v2: seq<T>, q3: seq<T>, v3: seq<T>,
      q4: seq<T>, v4: seq<T>, q5: seq<T>, v5: seq<T>, z: seq<T>)
    ensures o + (q1 + v1 + t + c + (q2 + v2 + t + c + (q3 + v3 + t + c + (q4 + v4 + t + c + (q5 + v5 + t))))) + z
         == (o + q1 + v1 + t + c + q2) + v2 + (t + c + q3) + v3 + (t + c + q4) + v4 + (t + c + q5) + v5 + (t + z)
  {
  }

  lemma FieldThenMore(f: (seq<byte>, seq<byte>), more: seq<(seq<byte>, seq<byte>)>)
    requires more != []
    ensures JsonFields([f] + more) == Field(f.0, f.1) + Ascii(",") + JsonFields(more)
  {
    hide JsonString, Ascii;
    ConsTail(f, more);
  }

  lemma FiveFields(a: (seq<byte>, seq<byte>), b: (seq<byte>, seq<byte>), c: (seq<byte>, seq<byte>),
                   d: (seq<byte>, seq<byte>), e: (seq<byte>, seq<byte>))
    ensures JsonFields([a, b, c, d, e])
         == Field(a.0, a.1) + Ascii(",") + (Field(b.0, b.1) + Ascii(",") + (Field(c.0, c.1) + Ascii(",")
            + (Field(d.0, d.1) + Ascii(",") + Field(e.0, e.1))))
  {
    assert JsonFields([e]) == Field(e.0, e.1);
    hide JsonFields, JsonString, Field, Ascii;
    FieldThenMore(d, [e]);
    FieldThenMore(c, [d] + [e]);
    FieldThenMore(b, [c] + ([d] + [e]));
    FieldThenMore(a, [b] + ([c] + ([d] + [e])));
    assert [a] + ([b] + ([c] + ([d] + [e]))) == [a, b, c, d, e];
  }

  /** What the CLI hashes is what the lock hashes, for every timestamp the lock admits. */
  lemma SameBytesOffChain(idHash: Bytes32, vote: byte, timestamp: seq<byte>, pubkey: Pubkey)
    requires TimestampOk(timestamp) && VoteWord(vote).Some?
    ensures CliCanonical(idHash, VoteWord(vote).value, timestamp, pubkey)
         == Canonical(idHash, VoteWord(vote).value, timestamp, pubkey)
  {
    hide Ascii, Hex, VoteWord, Plain, JsonFields, Field;
    var word := VoteWord(vote).value;
    var (h, k) := (ZERO_X + Hex(idHash), ZERO_X + Hex(pubkey));
    var (a, b, c, d, e) := (Ascii("domain"), Ascii("proposalIdHash"), Ascii("vote"), Ascii("timestamp"),
      Ascii("pubkey"));
    var v := Ascii("ckb-firewall:vote");
    AllPlain(idHash, vote, timestamp, pubkey);
    FiveFields((a, v), (b, h), (c, word), (d, timestamp), (e, k));
    PlainField(a, v);
    PlainField(b, h);
    PlainField(c, word);
    PlainField(d, timestamp);
    PlainField(e, k);
    Marks();
    var q := Ascii("\"");
    RegroupObject(Ascii("{"), q + a + COLON_QUOTE, v, q, Ascii(","), q + b + COLON_QUOTE, h, q + c + COLON_QUOTE, word,
                  q + d + COLON_QUOTE, timestamp, q + e + COLON_QUOTE, k, Ascii("}"));
    HeadText();
    FirstRegroup(Ascii("{"), q, a, COLON_QUOTE);
    JoinText("vote", TO_VOTE);
    JoinText("timestamp", TO_TIMESTAMP);
    JoinText("pubkey", TO_PUBKEY);
    Piece("\"", "}", TAIL);
  }

  lemma FirstRegroup<T>(o: seq<T>, q: seq<T>, a: seq<T>, m: seq<T>)
    ensures o + (q + a + m) == o + q + a + m
  {
  }
}
