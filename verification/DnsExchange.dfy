/**
  Replies from the sender's side: any list of addresses and aliases, written out in full, is read back record by record,
  and answers only the query it was sent for.
*/
module DnsExchange {
  import opened Octets
  import opened Checksum
  import opened Packets
  import opened Dns
  import opened DnsReply

  /** What a server says: a host has an address, or a nickname stands for another name. */
  datatype Sent = Host(owner: Bytes, ttl: Bytes, address: nat) | Nickname(owner: Bytes, ttl: Bytes, target: Bytes)

  predicate Sendable(r: Sent) {
    NameValid(r.owner) && |r.ttl| == 4 && if r.Host? then r.address <= UINT32_MAX else NameValid(r.target)
  }

  /** A record on the wire. */
  function Wire(r: Sent): Bytes
    requires Sendable(r)
  {
    EncodeName(r.owner, 0) + Body(r)
  }

  function Body(r: Sent): Bytes
    requires Sendable(r)
  {
    match r
    case Host(_, ttl, address) => [0, 1, 0, 1] + ttl + [0, 4] + Put32(address)
    case Nickname(_, ttl, target) => [0, 5, 0, 1] + ttl + Put16(|target| + 2) + EncodeName(target, 0)
  }

  /** A record as the receiver keeps it. */
  function Kept(r: Sent): Record {
    match r
    case Host(owner, _, address) => Record(Lowered(owner), ADDRESS, address, [])
    case Nickname(owner, _, target) => Record(Lowered(owner), ALIAS, 0, Lowered(target))
  }

  function Wires(rs: seq<Sent>): Bytes
    requires forall r | r in rs :: Sendable(r)
  {
    if rs == [] then [] else Wire(rs[0]) + Wires(rs[1..])
  }

  function KeptAll(rs: seq<Sent>): (records: seq<Record>)
    ensures |records| == |rs| && forall i | 0 <= i < |rs| :: records[i] == Kept(rs[i])
  {
    seq(|rs|, i requires 0 <= i < |rs| => Kept(rs[i]))
  }

  predicate Answerable(name: Bytes, id: nat, rs: seq<Sent>) {
    NameValid(name) && id <= ONES && 1 <= |rs| <= ANSWER_LIMIT && forall r | r in rs :: Sendable(r)
  }

  /** A response without error to the question for the address of `name`. */
  function Response(name: Bytes, id: nat, rs: seq<Sent>): Bytes
    requires Answerable(name, id, rs)
  {
    (Put16(id) + [129, 128, 0, 1] + Put16(|rs|) + [0, 0, 0, 0]) + (EncodeName(name, 0) + ([0, 1, 0, 1] + Wires(rs)))
  }

  // ---------------------------------------------------------------- words and names in a message

  lemma WordAt(m: Bytes, pos: nat, w: Bytes, i: nat)
    requires Has(m, pos, w) && i + 2 <= |w|
    ensures Get16(m, pos + i) == Get16(w, i)
  {
  }

  lemma NameAt(m: Bytes, pos: nat, name: Bytes)
    requires NameValid(name) && Has(m, pos, EncodeName(name, 0)) && |m| <= MESSAGE_MAX
    ensures DecodeName(m, pos) == Some(Decoded(Lowered(name), |name| + 2)) && |EncodeName(name, 0)| == |name| + 2
  {
    hide EncodeName, DecodeFrom, Lowered, LabelsOk;
    EncodedLength(name, 0);
    LabelBudget(name, 0);
    DecodeEncoded(m, pos, name, 0, 0, HOPS);
  }

  lemma NotEmpty(name: Bytes)
    requires NameValid(name)
    ensures Lowered(name) != []
  {
  }

  // ---------------------------------------------------------------- records

  /** Names are compared up to the case of letters: lower case identifies exactly the two cases, and is one of them. */
  lemma LoweredLaw(a: Bytes, b: Bytes)
    ensures Lowered(a) == Lowered(b) <==> |a| == |b| && forall i | 0 <= i < |a| :: SameLetter(a[i], b[i])
    ensures |Lowered(a)| == |a| && forall i | 0 <= i < |a| :: SameLetter(a[i], Lowered(a)[i]) && !('A' <= Lowered(a)[i] as char <= 'Z')
  {
    if Lowered(a) == Lowered(b) {
      forall i | 0 <= i < |a| ensures SameLetter(a[i], b[i]) { assert Lowered(a)[i] == Lowered(b)[i]; }
    }
  }

  /** Class, kind and length stand where they should. */
  lemma BodyReads(m: Bytes, at: nat, r: Sent)
    requires Sendable(r) && Has(m, at, Body(r)) && |m| <= MESSAGE_MAX
    ensures |Body(r)| == 10 + (if r.Host? then 4 else |r.target| + 2)
    ensures Get16(m, at) == (if r.Host? then ADDRESS else ALIAS) && Get16(m, at + 2) == 1 && Get16(m, at + 8) == |Body(r)| - 10
    ensures Contents(m, at + 10, Get16(m, at), |Body(r)| - 10, Lowered(r.owner)) == Some(Kept(r))
  {
    hide EncodeName, DecodeName, LabelsOk, Lowered;
    var b := Body(r);
    match r
    case Host(_, ttl, address) =>
      WordAt(m, at, b, 0);
      WordAt(m, at, b, 2);
      WordAt(m, at, b, 8);
      WordAt(m, at, b, 10);
      WordAt(m, at, b, 12);
      assert b[10..] == Put32(address);
      Slice16(b, 10, 14, 0);
      Slice16(b, 10, 14, 2);
      assert b[10..14] == b[10..];
      Words32(address);
    case Nickname(_, ttl, target) =>
      EncodedLength(target, 0);
      WordAt(m, at, b, 0);
      WordAt(m, at, b, 2);
      WordAt(m, at, b, 8);
      assert b == ([0, 5, 0, 1] + ttl + Put16(|target| + 2)) + EncodeName(target, 0);
      HasParts(m, at, [0, 5, 0, 1] + ttl + Put16(|target| + 2), EncodeName(target, 0));
      assert b[8..10] == Put16(|target| + 2);
      Slice16(b, 8, 10, 0);
      Word(|target| + 2);
      NameAt(m, at + 10, target);
      NotEmpty(target);
  }

  /** A record that stands in a message is parsed as what was sent, and the next one begins behind it. */
  lemma WireParses(m: Bytes, at: nat, r: Sent)
    requires Sendable(r) && Has(m, at, Wire(r)) && |m| <= MESSAGE_MAX
    ensures ParseRecord(m, at, true) == Some(Parsed(Kept(r), at + |Wire(r)|))
  {
    hide EncodeName, DecodeName, LabelsOk, Lowered, Body, Contents, Kept, Has;
    HasParts(m, at, EncodeName(r.owner, 0), Body(r));
    NameAt(m, at, r.owner);
    BodyReads(m, at + |r.owner| + 2, r);
    Inside(m, at, Wire(r));
  }

  lemma Inside(m: Bytes, at: nat, w: Bytes)
    requires Has(m, at, w)
    ensures at + |w| <= |m|
  {
  }

  /** All records, one after the other, to the end of the message. */
  lemma {:induction false} WiresParse(m: Bytes, at: nat, rs: seq<Sent>, kept: seq<Record>)
    requires (forall r | r in rs :: Sendable(r)) && Has(m, at, Wires(rs)) && at + |Wires(rs)| == |m| <= MESSAGE_MAX
    ensures ParseFrom(m, at, |rs|, |rs|, kept) == Some(kept + KeptAll(rs))
    decreases |rs|
  {
    hide ParseRecord, Wire, Kept, Has, Sendable;
    if rs != [] {
      HasParts(m, at, Wire(rs[0]), Wires(rs[1..]));
      WireParses(m, at, rs[0]);
      WiresParse(m, at + |Wire(rs[0])|, rs[1..], kept + [Kept(rs[0])]);
      assert kept + [Kept(rs[0])] + KeptAll(rs[1..]) == kept + KeptAll(rs);
    } else {
      assert kept + KeptAll(rs) == kept;
    }
  }

  // ---------------------------------------------------------------- whole replies

  lemma HeadReads(m: Bytes, id: nat, n: nat)
    requires id <= ONES && n <= ONES && Has(m, 0, Put16(id) + [129, 128, 0, 1] + Put16(n) + [0, 0, 0, 0])
    ensures |m| >= 12 && Get16(m, 0) == id && Get16(m, 2) == 0x8180 && Get16(m, 4) == 1 && Get16(m, 6) == n && Get16(m, 8) == 0 && Get16(m, 10) == 0
  {
    var h := Put16(id) + [129, 128, 0, 1] + Put16(n) + [0, 0, 0, 0];
    WordAt(m, 0, h, 0);
    WordAt(m, 0, h, 2);
    WordAt(m, 0, h, 4);
    WordAt(m, 0, h, 6);
    WordAt(m, 0, h, 8);
    WordAt(m, 0, h, 10);
    assert h[0..2] == Put16(id) && h[6..8] == Put16(n);
    Slice16(h, 0, 2, 0);
    Slice16(h, 6, 8, 0);
    Word(id);
    Word(n);
  }

  lemma Itself(m: Bytes)
    ensures Has(m, 0, m)
  {
  }

  lemma QuestionReads(m: Bytes, name: Bytes, rest: Bytes)
    requires NameValid(name) && Has(m, 12, EncodeName(name, 0) + ([0, 1, 0, 1] + rest)) && |m| <= MESSAGE_MAX
    ensures Question(m, name) == Some(|name| + 18) && Has(m, |name| + 18, rest)
  {
    hide EncodeName, DecodeName, LabelsOk, Lowered;
    HasParts(m, 12, EncodeName(name, 0), [0, 1, 0, 1] + rest);
    NameAt(m, 12, name);
    HasParts(m, |name| + 14, [0, 1, 0, 1], rest);
    WordAt(m, |name| + 14, [0, 1, 0, 1], 0);
    WordAt(m, |name| + 14, [0, 1, 0, 1], 2);
  }

  /** A query asks one question, with recursion and nothing else desired, and its question is the one a response must repeat. */
  lemma QueryAsks(name: Bytes, id: nat)
    requires NameValid(name) && id <= ONES
    ensures var q := Query(name, id);
      && |q| == |name| + 18 && Get16(q, 0) == id && Get16(q, 2) == 0x100 && Get16(q, 4) == 1 && Get16(q, 6) == 0 && Get16(q, 8) == 0 && Get16(q, 10) == 0
      && Question(q, name) == Some(|q|)
  {
    hide EncodeName, LabelsOk, Question, Has;
    var q, head := Query(name, id), Put16(id) + [1, 0, 0, 1, 0, 0, 0, 0, 0, 0];
    EncodedLength(name, 0);
    Itself(q);
    assert q == head + (EncodeName(name, 0) + ([0, 1, 0, 1] + []));
    HasParts(q, 0, head, EncodeName(name, 0) + ([0, 1, 0, 1] + []));
    QuestionReads(q, name, []);
    QueryHead(q, id);
  }

  lemma QueryHead(q: Bytes, id: nat)
    requires id <= ONES && Has(q, 0, Put16(id) + [1, 0, 0, 1, 0, 0, 0, 0, 0, 0])
    ensures |q| >= 12 && Get16(q, 0) == id && Get16(q, 2) == 0x100 && Get16(q, 4) == 1 && Get16(q, 6) == 0 && Get16(q, 8) == 0 && Get16(q, 10) == 0
  {
    var h := Put16(id) + [1, 0, 0, 1, 0, 0, 0, 0, 0, 0];
    WordAt(q, 0, h, 0);
    WordAt(q, 0, h, 2);
    WordAt(q, 0, h, 4);
    WordAt(q, 0, h, 6);
    WordAt(q, 0, h, 8);
    WordAt(q, 0, h, 10);
    assert h[0..2] == Put16(id);
    Slice16(h, 0, 2, 0);
    Word(id);
  }

  /** Any list of addresses and aliases comes through, in order, to whoever asked with this name and identifier. */
  lemma ResponseReads(name: Bytes, id: nat, rs: seq<Sent>)
    requires Answerable(name, id, rs) && |Response(name, id, rs)| <= MESSAGE_MAX
    ensures Answers(Response(name, id, rs), name, id) == Some(KeptAll(rs))
  {
    hide EncodeName, LabelsOk, Wires, Question, Has, ParseFrom;
    var m, head := Response(name, id, rs), Put16(id) + [129, 128, 0, 1] + Put16(|rs|) + [0, 0, 0, 0];
    Itself(m);
    HasParts(m, 0, head, EncodeName(name, 0) + ([0, 1, 0, 1] + Wires(rs)));
    HeadReads(m, id, |rs|);
    QuestionReads(m, name, Wires(rs));
    assert |m| == |name| + 18 + |Wires(rs)| by { EncodedLength(name, 0); }
    WiresParse(m, |name| + 18, rs, []);
    assert [] + KeptAll(rs) == KeptAll(rs);
  }

  predicate Bit(v: nat, k: nat)
    requires k < 16
  {
    v / [1, 2, 4, 8, 16, 32, 64, 128, 256, 512, 1024, 2048, 4096, 8192, 16384, 32768][k] % 2 == 1
  }

  /** The flags of an acceptable reply: the response bit is set; opcode, truncation, the reserved bit and the error code are all clear. */
  lemma FlagsTaken(m: Bytes, id: nat)
    requires |m| >= 12
    ensures HeaderOk(m, id) <==>
      && Get16(m, 0) == id && Bit(Get16(m, 2), 15)
      && (forall k {:trigger Bit(Get16(m, 2), k)} | k in {0, 1, 2, 3, 6, 9, 11, 12, 13, 14} :: !Bit(Get16(m, 2), k))
      && Get16(m, 4) == 1 && 1 <= Get16(m, 6) <= 16 && Get16(m, 6) + Get16(m, 8) + Get16(m, 10) <= 32
  {
    hide Get16;
    var flags := Get16(m, 2);
    HighBits(flags);
    LowBits(flags);
    assert Bit(flags, 9) <==> flags / 0x200 % 2 == 1;
    assert Bit(flags, 6) <==> flags / 0x40 % 2 == 1;
    hide Bit;
  }

  lemma HighBits(v: nat)
    requires v <= ONES
    ensures v / 0x800 == 16 <==> Bit(v, 15) && !Bit(v, 14) && !Bit(v, 13) && !Bit(v, 12) && !Bit(v, 11)
  {
    var h := v / 2048;
    assert v / 4096 == h / 2 && v / 8192 == h / 4 && v / 16384 == h / 8 && v / 32768 == h / 16 && h < 32;
  }

  lemma LowBits(v: nat)
    ensures v % 16 == 0 <==> !Bit(v, 3) && !Bit(v, 2) && !Bit(v, 1) && !Bit(v, 0)
  {
    var a, b, c, q := v / 2, v / 4, v / 8, v / 16;
    assert b == a / 2 && c == b / 2 && q == c / 2;
    assert v == 16 * q + (8 * (c % 2) + 4 * (b % 2) + 2 * (a % 2) + v % 2);
  }

  /** A message answers one query at most: one identifier, and one name up to case. */
  lemma AnswersOneQuery(m: Bytes, name: Bytes, id: nat, other: Bytes, id': nat)
    requires Answers(m, name, id).Some? && Answers(m, other, id').Some?
    ensures id == id' && Lowered(name) == Lowered(other) && Answers(m, name, id) == Answers(m, other, id')
  {
    hide DecodeName, ParseFrom, NameValid;
  }

  /** A reply sent for one query is nobody else's. */
  lemma NotForOthers(name: Bytes, id: nat, rs: seq<Sent>, other: Bytes, id': nat)
    requires Answerable(name, id, rs) && |Response(name, id, rs)| <= MESSAGE_MAX && (id' != id || Lowered(other) != Lowered(name))
    ensures Answers(Response(name, id, rs), other, id') == None
  {
    hide Response, Answers;
    ResponseReads(name, id, rs);
    if Answers(Response(name, id, rs), other, id').Some? { AnswersOneQuery(Response(name, id, rs), name, id, other, id'); }
  }

  // ---------------------------------------------------------------- what it resolves to

  /** A name resolves to one address at most. */
  lemma ResolvesOnce(records: seq<Record>, name: Bytes, a: nat, b: nat)
    requires Resolves(records, name, a) && Resolves(records, name, b)
    ensures a == b
  {
    hide AddressOf, Alias;
    var i: nat :| Answered(records, name, i) && AddressOf(records, Alias(records, name, i).value) == Some(a)
      && forall j: nat {:trigger Answered(records, name, j)} | j < i :: !Answered(records, name, j);
    var k: nat :| Answered(records, name, k) && AddressOf(records, Alias(records, name, k).value) == Some(b)
      && forall j: nat {:trigger Answered(records, name, j)} | j < k :: !Answered(records, name, j);
    assert i == k;
  }

  /** A name with an alias, and an address for what the alias stands for, in whichever order they come, resolves to that address. */
  lemma AliasResolves(name: Bytes, target: Bytes, ttl: Bytes, ttl': Bytes, address: nat, rs: seq<Sent>)
    requires rs == [Nickname(name, ttl, target), Host(target, ttl', address)] || rs == [Host(target, ttl', address), Nickname(name, ttl, target)]
    ensures Resolves(KeptAll(rs), Lowered(name), address)
  {
    hide Lowered, First;
    var records, n, t := KeptAll(rs), Lowered(name), Lowered(target);
    var nick := if rs[0].Nickname? then 0 else 1;
    OnlyHolder(records, ADDRESS, t, 1 - nick);
    assert AddressOf(records, t) == Some(address);
    AliasStart(records, n);
    if n == t {
      assert Answered(records, n, 0);
    } else {
      OnlyHolder(records, ALIAS, n, nick);
      NoHolder(records, ADDRESS, n);
      assert AliasOf(records, n) == Some(t);
      AliasMore(records, n, 0);
      assert !Answered(records, n, 0) && Answered(records, n, 1);
    }
  }

  /** If some record of the kind is the name's, the first one is found. */
  lemma OnlyHolder(records: seq<Record>, kind: nat, name: Bytes, i: nat)
    requires i < |records| && records[i].kind == kind && records[i].owner == name
    ensures First(records, kind, name) <= i
  {
    hide First;
  }

  lemma NoHolder(records: seq<Record>, kind: nat, name: Bytes)
    requires forall i | 0 <= i < |records| :: !(records[i].kind == kind && records[i].owner == name)
    ensures First(records, kind, name) == |records|
  {
    hide First;
  }
}
