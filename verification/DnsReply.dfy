/**
  Replies of kernel/net/dns.c: the records of a message, and the chase from alias to alias until a name has an address.
  The hop budget of the source never gives up on a chain that leads to an address.
*/
module DnsReply {
  import opened Octets
  import opened Checksum
  import opened Packets
  import opened Dns

  const ADDRESS: nat := 1
  const ALIAS: nat := 5
  const ANSWER_LIMIT: nat := 16
  const RECORD_LIMIT: nat := 32

  /** An answer as the source keeps it; answers of another class stay blank. */
  datatype Record = Record(owner: Bytes, kind: nat, address: nat, target: Bytes)

  const Blank := Record([], 0, 0, [])

  // ---------------------------------------------------------------- chasing aliases

  /** The first record of a kind for a name, or the number of records. */
  function First(records: seq<Record>, kind: nat, name: Bytes): (i: nat)
    ensures i <= |records| && (i < |records| ==> records[i].kind == kind && records[i].owner == name)
    ensures forall j | 0 <= j < i :: !(records[j].kind == kind && records[j].owner == name)
  {
    if records == [] then 0
    else
      var i := First(records[..|records| - 1], kind, name);
      if i < |records| - 1 || (records[|records| - 1].kind == kind && records[|records| - 1].owner == name) then i else |records|
  }

  function AddressOf(records: seq<Record>, name: Bytes): Option<nat> {
    var i := First(records, ADDRESS, name);
    if i < |records| then Some(records[i].address) else None
  }

  function AliasOf(records: seq<Record>, name: Bytes): Option<Bytes> {
    var i := First(records, ALIAS, name);
    if i < |records| then Some(records[i].target) else None
  }

  /** The name `k` aliases down the line. */
  ghost function Alias(records: seq<Record>, name: Bytes, k: nat): Option<Bytes> {
    if k == 0 then Some(name)
    else match Alias(records, name, k - 1) case None => None case Some(n) => AliasOf(records, n)
  }

  /** Step `k` of the chain has an address. */
  ghost predicate Answered(records: seq<Record>, name: Bytes, k: nat) {
    Alias(records, name, k).Some? && AddressOf(records, Alias(records, name, k).value).Some?
  }

  /** The first name of the chain that has an address has this one, however long the chain is. */
  ghost predicate Resolves(records: seq<Record>, name: Bytes, address: nat) {
    exists k: nat {:trigger Answered(records, name, k)} :: Answered(records, name, k)
      && AddressOf(records, Alias(records, name, k).value) == Some(address)
      && forall j: nat {:trigger Answered(records, name, j)} | j < k :: !Answered(records, name, j)
  }

  /** More numbers than values: two are the same. */
  lemma {:induction false} Pigeonhole(s: seq<nat>, n: nat) returns (i: nat, j: nat)
    requires |s| > n && forall k | 0 <= k < |s| :: s[k] < n
    ensures i < j < |s| && s[i] == s[j]
    decreases n
  {
    var last := |s| - 1;
    assert s[last] < n;
    if k :| 0 <= k < last && s[k] == s[last] {
      i, j := k, last;
    } else {
      var t := seq(last, k requires 0 <= k < last => if s[k] == n - 1 then s[last] else s[k]);
      forall k | 0 <= k < |t| ensures t[k] < n - 1 { assert s[k] < n && s[k] != s[last]; }
      i, j := Pigeonhole(t, n - 1);
    }
  }

  /** Chains that meet go on together. */
  lemma {:induction false} Together(records: seq<Record>, name: Bytes, i: nat, j: nat, d: nat)
    requires Alias(records, name, i) == Alias(records, name, j)
    ensures Alias(records, name, i + d) == Alias(records, name, j + d)
    decreases d
  {
    hide AliasOf;
    if d > 0 { Together(records, name, i, j, d - 1); }
  }

  /** After a repetition nothing new comes. */
  lemma {:induction false} Periodic(records: seq<Record>, name: Bytes, i: nat, j: nat, k: nat)
    requires i < j && Alias(records, name, i) == Alias(records, name, j) && Answered(records, name, k)
    ensures exists h: nat {:trigger Answered(records, name, h)} | h < j :: Answered(records, name, h)
    decreases k
  {
    hide Alias, AddressOf;
    if k >= j {
      Together(records, name, i, j, k - j);
      assert j + (k - j) == k && i + (k - j) == k - (j - i);
      Periodic(records, name, i, j, k - (j - i));
    }
  }

  /** If the first |records| + 1 names of a chain are aliases without an address, no name of the chain has one. */
  lemma BudgetSuffices(records: seq<Record>, name: Bytes, k: nat)
    requires forall h: nat {:trigger Answered(records, name, h)} | h <= |records| :: !Answered(records, name, h)
    requires forall h: nat {:trigger Alias(records, name, h)} | h <= |records| + 1 :: Alias(records, name, h).Some?
    ensures !Answered(records, name, k)
  {
    hide Alias, First, Answered;
    var n := |records|;
    if Answered(records, name, k) {
      var s: seq<nat> := seq(n + 1, h requires 0 <= h <= n => HolderOf(records, name, h));
      forall h | 0 <= h < |s| ensures s[h] < n && Alias(records, name, h) == Some(records[s[h]].owner) { Holder(records, name, h); }
      var i, j := Pigeonhole(s, n);
      Periodic(records, name, i, j, k);
    }
  }

  ghost function HolderOf(records: seq<Record>, name: Bytes, h: nat): nat {
    if Alias(records, name, h).Some? then First(records, ALIAS, Alias(records, name, h).value) else 0
  }

  /** A name that has a successor owns an alias record. */
  lemma Holder(records: seq<Record>, name: Bytes, h: nat)
    requires Alias(records, name, h).Some? && Alias(records, name, h + 1).Some?
    ensures HolderOf(records, name, h) < |records| && Alias(records, name, h) == Some(records[HolderOf(records, name, h)].owner)
  {
    hide First;
  }

  method Find(records: seq<Record>, kind: nat, name: Bytes) returns (i: nat)
    ensures i == First(records, kind, name)
  {
    i := 0;
    while i < |records|
      invariant i <= |records| && forall j | 0 <= j < i :: !(records[j].kind == kind && records[j].owner == name)
    {
      if records[i].kind == kind && records[i].owner == name { return; }
      i := i + 1;
    }
  }

  /** An address is found exactly when some name down the chain has one; loops of aliases end in failure. */
  method Chase(records: seq<Record>, name: Bytes) returns (r: Option<nat>)
    ensures r.Some? ==> Resolves(records, name, r.value)
    ensures r.None? ==> forall k: nat {:trigger Answered(records, name, k)} :: !Answered(records, name, k)
  {
    hide First, Alias;
    var expected, hop := name, 0;
    assert Alias(records, name, 0) == Some(name) by { AliasStart(records, name); }
    while hop <= |records|
      invariant hop <= |records| + 1 && Alias(records, name, hop) == Some(expected)
      invariant forall h: nat {:trigger Alias(records, name, h)} | h <= hop :: Alias(records, name, h).Some?
      invariant forall h: nat {:trigger Answered(records, name, h)} | h < hop :: !Answered(records, name, h)
    {
      var i := Find(records, ADDRESS, expected);
      if i < |records| {
        assert Answered(records, name, hop);
        return Some(records[i].address);
      }
      assert !Answered(records, name, hop);
      i := Find(records, ALIAS, expected);
      AliasMore(records, name, hop);
      if i == |records| {
        forall k: nat {:trigger Answered(records, name, k)} ensures !Answered(records, name, k) {
          if k > hop { AliasEnds(records, name, hop + 1, k); }
        }
        return None;
      }
      expected := records[i].target;
      hop := hop + 1;
    }
    forall k: nat {:trigger Answered(records, name, k)} ensures !Answered(records, name, k) { BudgetSuffices(records, name, k); }
    r := None;
  }

  lemma AliasStart(records: seq<Record>, name: Bytes)
    ensures Alias(records, name, 0) == Some(name)
  {
  }

  lemma AliasMore(records: seq<Record>, name: Bytes, k: nat)
    requires Alias(records, name, k).Some?
    ensures Alias(records, name, k + 1) == AliasOf(records, Alias(records, name, k).value)
  {
    hide AliasOf;
  }

  lemma {:induction false} AliasEnds(records: seq<Record>, name: Bytes, h: nat, k: nat)
    requires Alias(records, name, h).None? && h <= k
    ensures Alias(records, name, k).None?
    decreases k
  {
    hide AliasOf;
    if h < k { AliasEnds(records, name, h, k - 1); }
  }

  // ---------------------------------------------------------------- reading the records

  /** A response without error to a standard query, whole, with one question and few enough records. */
  predicate HeaderOk(m: Bytes, id: nat)
    requires |m| >= 12
  {
    var flags := Get16(m, 2);
    && Get16(m, 0) == id && flags / 0x800 == 16 && flags / 0x200 % 2 == 0 && flags / 0x40 % 2 == 0 && flags % 16 == 0
    && Get16(m, 4) == 1 && 1 <= Get16(m, 6) <= ANSWER_LIMIT && Get16(m, 6) + Get16(m, 8) + Get16(m, 10) <= RECORD_LIMIT
  }

  /** The question repeats the name asked for, as an Internet address; the result is where the records begin. */
  function Question(m: Bytes, name: Bytes): (r: Option<nat>)
    ensures r.Some? ==> r.value <= |m|
  {
    match DecodeName(m, 12)
    case None => None
    case Some(d) =>
      if d.name != Lowered(name) || 12 + d.consumed + 4 > |m| then None
      else if Get16(m, 12 + d.consumed) != 1 || Get16(m, 14 + d.consumed) != 1 then None
      else Some(16 + d.consumed)
  }

  datatype Parsed = Parsed(record: Record, next: nat)

  /** What an Internet record says; a malformed address or alias spoils the message. */
  function Contents(m: Bytes, at: nat, kind: nat, length: nat, owner: Bytes): Option<Record>
    requires at + length <= |m|
  {
    if kind == ADDRESS then
      if length != 4 then None else Some(Record(owner, kind, Get32(m, at), []))
    else if kind == ALIAS then
      match DecodeName(m, at)
      case None => None
      case Some(d) => if d.consumed != length || d.name == [] then None else Some(Record(owner, kind, 0, d.name))
    else Some(Record(owner, kind, 0, []))
  }

  /** One record, of which only answers of the Internet class are kept. */
  function ParseRecord(m: Bytes, offset: nat, answer: bool): (r: Option<Parsed>)
    ensures r.Some? ==> offset < r.value.next <= |m|
  {
    match DecodeName(m, offset)
    case None => None
    case Some(d) =>
      var at := offset + d.consumed;
      if at + 10 > |m| then None
      else
        var length := Get16(m, at + 8);
        if at + 10 + length > |m| then None
        else if !answer || Get16(m, at + 2) != 1 then Some(Parsed(Blank, at + 10 + length))
        else match Contents(m, at + 10, Get16(m, at), length, d.name)
          case None => None
          case Some(record) => Some(Parsed(record, at + 10 + length))
  }

  /** The answers, if the `count` records from `offset` on fill the message exactly. */
  function ParseFrom(m: Bytes, offset: nat, count: nat, wanted: nat, kept: seq<Record>): Option<seq<Record>>
    decreases count
  {
    if count == 0 then if offset == |m| then Some(kept) else None
    else match ParseRecord(m, offset, wanted > 0)
      case None => None
      case Some(p) => ParseFrom(m, p.next, count - 1, if wanted > 0 then wanted - 1 else 0, if wanted > 0 then kept + [p.record] else kept)
  }

  /** The answers of a message that is a reply to this query. */
  function Answers(m: Bytes, name: Bytes, id: nat): Option<seq<Record>> {
    if |m| < 12 || |m| > MESSAGE_MAX || !NameValid(name) || !HeaderOk(m, id) then None
    else match Question(m, name)
      case None => None
      case Some(at) => ParseFrom(m, at, Get16(m, 6) + Get16(m, 8) + Get16(m, 10), Get16(m, 6), [])
  }

  /** A well-formed reply keeps exactly as many answers as it announces. */
  lemma {:induction false} AnswerCount(m: Bytes, offset: nat, count: nat, wanted: nat, kept: seq<Record>)
    requires wanted <= count && ParseFrom(m, offset, count, wanted, kept).Some?
    ensures |ParseFrom(m, offset, count, wanted, kept).value| == |kept| + wanted
    decreases count
  {
    hide ParseRecord;
    if count > 0 {
      var p := ParseRecord(m, offset, wanted > 0).value;
      AnswerCount(m, p.next, count - 1, if wanted > 0 then wanted - 1 else 0, if wanted > 0 then kept + [p.record] else kept);
    }
  }

  method ReadRecord(m: Bytes, offset: nat, answer: bool) returns (r: Option<Parsed>)
    ensures r == ParseRecord(m, offset, answer)
  {
    hide DecodeName;
    var owner := ReadName(m, offset);
    if owner.None? { return None; }
    var at := offset + owner.value.consumed;
    if at + 10 > |m| { return None; }
    var kind, family, length := Get16(m, at), Get16(m, at + 2), Get16(m, at + 8);
    at := at + 10;
    if at + length > |m| { return None; }
    var record := Blank;
    if answer && family == 1 {
      record := Record(owner.value.name, kind, 0, []);
      if kind == ADDRESS {
        if length != 4 { return None; }
        record := record.(address := Get32(m, at));
      } else if kind == ALIAS {
        var target := ReadName(m, at);
        if target.None? || target.value.consumed != length || target.value.name == [] { return None; }
        record := record.(target := target.value.name);
      }
    }
    r := Some(Parsed(record, at + length));
  }

  /**
    A reply is answered with an address exactly when it is well formed and its alias chain, followed as far as it goes,
    leads to a name with an address; the first such address is returned.
  */
  method DecodeReply(m: Bytes, name: Bytes, id: nat) returns (r: Option<nat>)
    ensures r.Some? ==> Answers(m, name, id).Some? && Resolves(Answers(m, name, id).value, Lowered(name), r.value)
    ensures r.None? && Answers(m, name, id).Some? ==> forall k: nat {:trigger Answered(Answers(m, name, id).value, Lowered(name), k)} :: !Answered(Answers(m, name, id).value, Lowered(name), k)
  {
    hide DecodeName, ParseRecord, NameValid, Answered, Resolves, Lowered;
    r := None;
    if |m| < 12 || |m| > MESSAGE_MAX { return; }
    var valid := CheckName(name);
    if !valid || !HeaderOk(m, id) { return; }
    var answers: nat := Get16(m, 6);
    var records := answers + Get16(m, 8) + Get16(m, 10);
    var question := ReadName(m, 12);
    if question.None? { return; }
    var used := question.value.consumed;
    if question.value.name != Lowered(name) || 12 + used + 4 > |m| || Get16(m, 12 + used) != 1 || Get16(m, 14 + used) != 1 { return; }
    var offset: nat, i, kept: seq<Record> := 16 + used, 0, [];
    while i < records
      invariant i <= records
      invariant Answers(m, name, id) == ParseFrom(m, offset, records - i, if i < answers then answers - i else 0, kept)
    {
      var p := ReadRecord(m, offset, i < answers);
      if p.None? { return; }
      if i < answers { kept := kept + [p.value.record]; }
      offset := p.value.next;
      i := i + 1;
    }
    if offset != |m| { return; }
    r := Chase(kept, Lowered(name));
  }

  // ---------------------------------------------------------------- the usual reply

  /** A jump changes what is consumed, not what is read. */
  lemma {:induction false} JumpedSame(m: Bytes, pos: nat, acc: Bytes, a: nat, b: nat, hops: nat)
    ensures DecodeFrom(m, pos, acc, a, true, hops) ==
      match DecodeFrom(m, pos, acc, b, false, hops) case None => None case Some(d) => Some(Decoded(d.name, a))
    decreases hops
  {
    hide Lowered, AllCharacters, Joined, Target;
    if hops > 0 && pos < |m| {
      var length := m[pos];
      if 0 < length < 64 && length <= |m| - (pos + 1) {
        JumpedSame(m, pos + 1 + length, Joined(acc, Lowered(m[pos + 1..pos + 1 + length])), a, b + 1 + length, hops - 1);
      } else if length >= 192 && pos + 1 < |m| {
        TwoJumps(m, Target(m, pos), acc, a, b + 2, hops - 1);
      }
    }
  }

  /** After a jump the count is fixed. */
  lemma {:induction false} TwoJumps(m: Bytes, pos: nat, acc: Bytes, a: nat, b: nat, hops: nat)
    ensures DecodeFrom(m, pos, acc, a, true, hops) ==
      match DecodeFrom(m, pos, acc, b, true, hops) case None => None case Some(d) => Some(Decoded(d.name, a))
    ensures DecodeFrom(m, pos, acc, b, true, hops).Some? ==> DecodeFrom(m, pos, acc, b, true, hops).value.consumed == b
    decreases hops
  {
    hide Lowered, AllCharacters, Joined, Target;
    if hops > 0 && pos < |m| {
      var length := m[pos];
      if 0 < length < 64 && length <= |m| - (pos + 1) {
        TwoJumps(m, pos + 1 + length, Joined(acc, Lowered(m[pos + 1..pos + 1 + length])), a, b, hops - 1);
      } else if length >= 192 && pos + 1 < |m| {
        TwoJumps(m, Target(m, pos), acc, a, b, hops - 1);
      }
    }
  }

  /** One address record whose owner is a pointer to the question. */
  function OneAnswer(ttl: Bytes, address: nat): (s: Bytes)
    requires |ttl| == 4 && address <= UINT32_MAX
    ensures |s| == 16
  {
    [192, 12, 0, 1, 0, 1] + ttl + [0, 4] + Put32(address)
  }

  function Reply(name: Bytes, id: nat, ttl: Bytes, address: nat): Bytes
    requires NameValid(name) && id <= ONES && |ttl| == 4 && address <= UINT32_MAX
  {
    Put16(id) + [129, 128, 0, 1, 0, 1, 0, 0, 0, 0] + EncodeName(name, 0) + [0, 1, 0, 1] + OneAnswer(ttl, address)
  }

  lemma ReplyParts(name: Bytes, id: nat, ttl: Bytes, address: nat)
    requires NameValid(name) && id <= ONES && |ttl| == 4 && address <= UINT32_MAX
    ensures var m := Reply(name, id, ttl, address);
      && |m| == |name| + 34 && m[..2] == Put16(id) && m[2..12] == [129, 128, 0, 1, 0, 1, 0, 0, 0, 0]
      && m[12..|name| + 14] == EncodeName(name, 0) && m[|name| + 14..|name| + 18] == [0, 1, 0, 1]
      && m[|name| + 18..] == OneAnswer(ttl, address)
  {
    hide EncodeName, LabelsOk, OneAnswer;
    EncodedLength(name, 0);
  }

  lemma Slice16(m: Bytes, a: nat, b: nat, i: nat)
    requires a <= b <= |m| && i + 2 <= b - a
    ensures Get16(m, a + i) == Get16(m[a..b], i)
  {
  }

  lemma ReplyHeader(name: Bytes, id: nat, ttl: Bytes, address: nat)
    requires NameValid(name) && id <= ONES && |ttl| == 4 && address <= UINT32_MAX
    ensures |Reply(name, id, ttl, address)| == |name| + 34 && HeaderOk(Reply(name, id, ttl, address), id)
    ensures Get16(Reply(name, id, ttl, address), 6) == 1 && Get16(Reply(name, id, ttl, address), 8) == 0
    ensures Get16(Reply(name, id, ttl, address), 10) == 0
  {
    hide EncodeName, LabelsOk, OneAnswer, Reply;
    ReplyParts(name, id, ttl, address);
    var m := Reply(name, id, ttl, address);
    Slice16(m, 0, 2, 0);
    Slice16(m, 2, 12, 0);
    Slice16(m, 2, 12, 2);
    Slice16(m, 2, 12, 4);
    Slice16(m, 2, 12, 6);
    Slice16(m, 2, 12, 8);
    Word(id);
  }

  lemma Word(v: nat)
    requires v <= ONES
    ensures Get16(Put16(v), 0) == v
  {
  }

  lemma ReplyQuestion(name: Bytes, id: nat, ttl: Bytes, address: nat)
    requires NameValid(name) && id <= ONES && |ttl| == 4 && address <= UINT32_MAX
    ensures Question(Reply(name, id, ttl, address), name) == Some(|name| + 18)
    ensures |Reply(name, id, ttl, address)| == |name| + 34
    ensures Has(Reply(name, id, ttl, address), 12, EncodeName(name, 0))
  {
    hide EncodeName, LabelsOk, OneAnswer, Reply, DecodeFrom, Lowered;
    ReplyParts(name, id, ttl, address);
    var m, n := Reply(name, id, ttl, address), |name|;
    EncodedLength(name, 0);
    LabelBudget(name, 0);
    forall k | 0 <= k < n + 2 ensures m[12 + k] == EncodeName(name, 0)[k] { assert m[12..n + 14][k] == m[12 + k]; }
    DecodeEncoded(m, 12, name, 0, 0, HOPS);
    Slice16(m, n + 14, n + 18, 0);
    Slice16(m, n + 14, n + 18, 2);
  }

  lemma PointerStep(m: Bytes, pos: nat, hops: nat)
    requires 12 < pos && pos + 1 < |m| && m[pos] == 192 && m[pos + 1] == 12 && hops > 0
    ensures DecodeFrom(m, pos, [], 0, false, hops) == DecodeFrom(m, 12, [], 2, true, hops - 1)
  {
  }

  /** The pointer costs a hop: the owner is read exactly when the name leaves one. */
  lemma ReplyOwner(name: Bytes, id: nat, ttl: Bytes, address: nat)
    requires NameValid(name) && id <= ONES && |ttl| == 4 && address <= UINT32_MAX
    ensures DecodeName(Reply(name, id, ttl, address), |name| + 18) ==
      if LabelCount(name, 0) <= 126 then Some(Decoded(Lowered(name), 2)) else None
  {
    hide EncodeName, LabelsOk, Reply, Lowered, Has, LabelCount, DecodeFrom;
    ReplyParts(name, id, ttl, address);
    ReplyQuestion(name, id, ttl, address);
    var m, n := Reply(name, id, ttl, address), |name|;
    assert m[n + 18] == m[n + 18..][0] == 192 && m[n + 19] == m[n + 18..][1] == 12;
    PointerStep(m, n + 18, HOPS);
    DecodeEncoded(m, 12, name, 0, 0, HOPS - 1);
    JumpedSame(m, 12, [], 2, 0, HOPS - 1);
  }

  lemma ReplyRecord(name: Bytes, id: nat, ttl: Bytes, address: nat)
    requires NameValid(name) && id <= ONES && |ttl| == 4 && address <= UINT32_MAX
    ensures ParseRecord(Reply(name, id, ttl, address), |name| + 18, true) ==
      if LabelCount(name, 0) <= 126 then Some(Parsed(Record(Lowered(name), ADDRESS, address, []), |name| + 34)) else None
  {
    hide EncodeName, LabelsOk, Reply, Lowered, LabelCount, DecodeName;
    ReplyParts(name, id, ttl, address);
    ReplyOwner(name, id, ttl, address);
    var m, at := Reply(name, id, ttl, address), |name| + 18;
    var tail := m[at..];
    assert tail == m[at..|m|];
    Slice16(m, at, |m|, 2);
    Slice16(m, at, |m|, 4);
    Slice16(m, at, |m|, 10);
    Slice16(m, at, |m|, 12);
    Slice16(m, at, |m|, 14);
    assert tail[12..] == Put32(address);
    Slice16(tail, 12, 16, 0);
    Slice16(tail, 12, 16, 2);
    assert tail[12..16] == tail[12..];
    Words32(address);
  }

  /**
    A resolver that answers the question with one address and a compressed owner is understood, unless the name has 127
    labels: the pointer takes one of the 128 hops, and such a name needs them all.
  */
  lemma ReplyRoundTrip(name: Bytes, id: nat, ttl: Bytes, address: nat)
    requires NameValid(name) && id <= ONES && |ttl| == 4 && address <= UINT32_MAX
    ensures Answers(Reply(name, id, ttl, address), name, id) ==
      if LabelCount(name, 0) <= 126 then Some([Record(Lowered(name), ADDRESS, address, [])]) else None
    ensures Resolves([Record(Lowered(name), ADDRESS, address, [])], Lowered(name), address)
  {
    hide EncodeName, LabelsOk, Reply, Lowered, LabelCount, ParseRecord, HeaderOk, Question;
    ReplyHeader(name, id, ttl, address);
    ReplyQuestion(name, id, ttl, address);
    ReplyRecord(name, id, ttl, address);
    var record := Record(Lowered(name), ADDRESS, address, []);
    assert [] + [record] == [record];
    assert Answered([record], Lowered(name), 0);
  }

  /** The longest names are asked for, and their compressed answers refused. */
  lemma LongestRefused(id: nat, ttl: Bytes, address: nat)
    requires id <= ONES && |ttl| == 4 && address <= UINT32_MAX
    ensures NameValid(Longest(127)) && Answers(Reply(Longest(127), id, ttl, address), Longest(127), id) == None
  {
    hide Reply, Answers, Longest;
    BudgetIsTight(id);
    ReplyRoundTrip(Longest(127), id, ttl, address);
  }
}
