/**
  DNS names and queries of kernel/net/dns.c: validation, the query builder, and the decoder for possibly compressed names
  (section 4.1.4 of RFC 1035).
*/
module Dns {
  import opened Octets
  import opened Checksum
  import opened Packets

  const NAME_MAX: nat := 254
  const MESSAGE_MAX: nat := 512
  const HOPS: nat := 128
  const DOT: Octet := 46

  predicate Character(c: Octet) { 97 <= c <= 122 || 65 <= c <= 90 || 48 <= c <= 57 || c == 45 || c == 95 }

  function Lower(c: Octet): Octet { if 65 <= c <= 90 then c + 32 else c }

  function Lowered(s: Bytes): (r: Bytes)
    ensures |r| == |s| && forall i | 0 <= i < |s| :: r[i] == Lower(s[i])
  {
    seq(|s|, i requires 0 <= i < |s| => Lower(s[i]))
  }

  // ---------------------------------------------------------------- names

  /** The end of the label that starts at `begin`. */
  function LabelEnd(name: Bytes, begin: nat): (e: nat)
    requires begin <= |name|
    ensures begin <= e <= |name| && (forall i | begin <= i < e :: name[i] != DOT) && (e < |name| ==> name[e] == DOT)
    decreases |name| - begin
  {
    if begin == |name| || name[begin] == DOT then begin else LabelEnd(name, begin + 1)
  }

  predicate LabelOk(part: Bytes) { 1 <= |part| <= 63 && forall i | 0 <= i < |part| :: Character(part[i]) }

  /** The labels from `begin` on are all well formed. */
  predicate LabelsOk(name: Bytes, begin: nat)
    requires begin <= |name|
    decreases |name| - begin
  {
    var e := LabelEnd(name, begin);
    LabelOk(name[begin..e]) && (e == |name| || LabelsOk(name, e + 1))
  }

  /** One to 63 permitted characters between dots, no empty label, at most 253 bytes in all. */
  predicate NameValid(name: Bytes) { |name| < NAME_MAX && LabelsOk(name, 0) }

  function LabelCount(name: Bytes, begin: nat): nat
    requires begin <= |name|
    decreases |name| - begin
  {
    var e := LabelEnd(name, begin);
    if e == |name| then 1 else 1 + LabelCount(name, e + 1)
  }

  lemma {:induction false} LabelBudget(name: Bytes, begin: nat)
    requires begin <= |name| && LabelsOk(name, begin)
    ensures 2 * LabelCount(name, begin) <= |name| - begin + 1
    decreases |name| - begin
  {
    var e := LabelEnd(name, begin);
    if e < |name| { LabelBudget(name, e + 1); }
  }

  /** The scan of the source, one character at a time. The name is a C string: it holds no zero byte. */
  method CheckName(name: Bytes) returns (ok: bool)
    ensures ok <==> NameValid(name)
  {
    hide LabelsOk, LabelEnd, Character;
    var part: nat, i: nat := 0, 0;
    while i < NAME_MAX
      invariant i <= NAME_MAX && i <= |name| && part <= i && part <= 63 && Running(name, i - part, i)
      invariant LabelsOk(name, 0) <==> LabelsOk(name, i - part)
    {
      LabelStops(name, i - part, i);
      if i == |name| { return i != 0 && part != 0; }
      var c := name[i];
      if c == DOT {
        if part == 0 { return false; }
        part := 0;
      } else {
        if !Character(c) || part + 1 > 63 {
          BadLabel(name, i - part, i);
          return false;
        }
        part := part + 1;
      }
      i := i + 1;
    }
    ok := false;
  }

  /** Inside a label: only permitted characters since `begin`. */
  ghost predicate Running(name: Bytes, begin: nat, i: nat)
    requires begin <= i <= |name|
  {
    forall j | begin <= j < i :: name[j] != DOT && Character(name[j])
  }

  /** At the end of a label, the labels from `begin` on are well formed if it is not empty and the rest is. */
  lemma LabelStops(name: Bytes, begin: nat, i: nat)
    requires begin <= i <= |name| && Running(name, begin, i) && i - begin <= 63
    ensures i == |name| ==> (LabelsOk(name, begin) <==> begin < i)
    ensures i < |name| && name[i] == DOT ==> (LabelsOk(name, begin) <==> begin < i && LabelsOk(name, i + 1))
  {
    EndBeyond(name, begin, i);
  }

  /** A stretch without dots lies inside one label. */
  lemma EndBeyond(name: Bytes, begin: nat, i: nat)
    requires begin <= i <= |name| && forall j | begin <= j < i :: name[j] != DOT
    ensures LabelEnd(name, begin) >= i && (i < |name| && name[i] == DOT ==> LabelEnd(name, begin) == i)
    ensures i == |name| ==> LabelEnd(name, begin) == i
  {
  }

  lemma BadLabel(name: Bytes, begin: nat, i: nat)
    requires begin <= i < |name| && (forall j | begin <= j < i :: name[j] != DOT) && name[i] != DOT
    requires !Character(name[i]) || i - begin + 1 > 63
    ensures !LabelsOk(name, begin)
  {
    EndBeyond(name, begin, i + 1);
    var e := LabelEnd(name, begin);
    assert name[begin..e][i - begin] == name[i];
  }

  // ---------------------------------------------------------------- encoding

  function Prefixed(part: Bytes): Bytes
    requires |part| <= 63
  {
    [|part|] + Lowered(part)
  }

  /** Length-prefixed lower-case labels and the terminating zero. */
  function EncodeName(name: Bytes, begin: nat): Bytes
    requires begin <= |name| && LabelsOk(name, begin)
    decreases |name| - begin
  {
    var e := LabelEnd(name, begin);
    Prefixed(name[begin..e]) + if e == |name| then [0] else EncodeName(name, e + 1)
  }

  lemma {:induction false} EncodedLength(name: Bytes, begin: nat)
    requires begin <= |name| && LabelsOk(name, begin)
    ensures |EncodeName(name, begin)| == |name| - begin + 2
    decreases |name| - begin
  {
    var e := LabelEnd(name, begin);
    if e < |name| { EncodedLength(name, e + 1); }
  }

  /** Identifier, recursion desired, one question for an IN address. */
  function Query(name: Bytes, id: nat): Bytes
    requires NameValid(name) && id <= ONES
  {
    Put16(id) + [1, 0, 0, 1, 0, 0, 0, 0, 0, 0] + EncodeName(name, 0) + [0, 1, 0, 1]
  }

  // ---------------------------------------------------------------- decoding

  datatype Decoded = Decoded(name: Bytes, consumed: nat)

  function Joined(acc: Bytes, part: Bytes): Bytes { if acc == [] then part else acc + [DOT] + part }

  predicate AllCharacters(s: Bytes) { forall i | 0 <= i < |s| :: Character(s[i]) }

  /** The offset a compression pointer names. */
  function Target(m: Bytes, pos: nat): (t: nat)
    requires pos + 1 < |m| && m[pos] >= 192
  {
    (m[pos] as int - 192) * 256 + m[pos + 1] as int
  }

  /** What is left of a decoding at `pos`, with `hops` steps allowed. */
  function DecodeFrom(m: Bytes, pos: nat, acc: Bytes, encoded: nat, jumped: bool, hops: nat): Option<Decoded>
    decreases hops
  {
    if hops == 0 || pos >= |m| then None
    else
      var length := m[pos];
      if length >= 192 then
        if pos + 1 >= |m| then None
        else
          var target := Target(m, pos);
          if target < 12 || target >= pos then None
          else DecodeFrom(m, target, acc, if jumped then encoded else encoded + 2, true, hops - 1)
      else if length >= 64 then None
      else if length == 0 then Some(Decoded(acc, if jumped then encoded else encoded + 1))
      else if length > |m| - (pos + 1) || |acc| + (if acc != [] then 1 else 0) + length >= NAME_MAX then None
      else if !AllCharacters(m[pos + 1..pos + 1 + length]) then None
      else DecodeFrom(m, pos + 1 + length, Joined(acc, Lowered(m[pos + 1..pos + 1 + length])),
                      if jumped then encoded else encoded + 1 + length, jumped, hops - 1)
  }

  function DecodeName(m: Bytes, offset: nat): Option<Decoded> {
    if |m| > MESSAGE_MAX || offset >= |m| then None else DecodeFrom(m, offset, [], 0, false, HOPS)
  }

  // ---------------------------------------------------------------- decoding undoes encoding

  lemma CharactersStay(s: Bytes)
    requires AllCharacters(s)
    ensures AllCharacters(Lowered(s)) && Lowered(Lowered(s)) == Lowered(s)
  {
  }

  /** Below 64 and nonzero: a length byte, never a pointer. */
  lemma LengthByte(name: Bytes, begin: nat)
    requires begin <= |name| && LabelsOk(name, begin)
    ensures var e := LabelEnd(name, begin);
      && 1 <= e - begin <= 63 && AllCharacters(name[begin..e])
      && (e < |name| ==> LabelsOk(name, e + 1) && LabelCount(name, begin) == 1 + LabelCount(name, e + 1))
      && (e == |name| ==> LabelCount(name, begin) == 1)
  {
  }

  /** The name so far, in lower case, followed by its next label. */
  lemma JoinedPrefix(name: Bytes, begin: nat, e: nat)
    requires begin <= e <= |name| && (begin > 0 ==> 2 <= begin && name[begin - 1] == DOT)
    ensures Joined(if begin == 0 then [] else Lowered(name[..begin - 1]), Lowered(name[begin..e])) == Lowered(name[..e])
  {
    if begin > 0 {
      var joined := Lowered(name[..begin - 1]) + [DOT] + Lowered(name[begin..e]);
      forall i | 0 <= i < e ensures joined[i] == Lowered(name[..e])[i] {
        assert i >= begin ==> joined[i] == Lowered(name[begin..e])[i - begin];
      }
    } else {
      assert name[0..e] == name[..e];
    }
  }

  lemma HasParts(m: Bytes, pos: nat, a: Bytes, b: Bytes)
    requires Has(m, pos, a + b)
    ensures Has(m, pos, a) && Has(m, pos + |a|, b)
  {
    forall k | 0 <= k < |a| ensures m[pos + k] == a[k] { assert (a + b)[k] == a[k]; }
    forall k | 0 <= k < |b| ensures m[pos + |a| + k] == b[k] { assert (a + b)[|a| + k] == b[k]; }
  }

  /** One label is one hop. */
  lemma DecodeLabel(m: Bytes, pos: nat, part: Bytes, acc: Bytes, encoded: nat, hops: nat)
    requires 1 <= |part| <= 63 && AllCharacters(part) && Lowered(part) == part && Has(m, pos, [|part|] + part) && hops > 0
    requires |acc| + (if acc != [] then 1 else 0) + |part| < NAME_MAX
    ensures DecodeFrom(m, pos, acc, encoded, false, hops) ==
            DecodeFrom(m, pos + 1 + |part|, Joined(acc, part), encoded + 1 + |part|, false, hops - 1)
  {
    HasParts(m, pos, [|part|], part);
    assert m[pos] == [|part|][0];
    assert m[pos + 1..pos + 1 + |part|] == part;
  }

  lemma DecodeEnd(m: Bytes, pos: nat, acc: Bytes, encoded: nat, hops: nat)
    requires Has(m, pos, [0])
    ensures DecodeFrom(m, pos, acc, encoded, false, hops) == if hops > 0 then Some(Decoded(acc, encoded + 1)) else None
  {
    assert m[pos] == [0][0];
  }

  lemma {:induction false} EncodeParts(name: Bytes, begin: nat)
    requires begin <= |name| && LabelsOk(name, begin)
    ensures var e := LabelEnd(name, begin);
      EncodeName(name, begin) == ([e - begin] + Lowered(name[begin..e])) + if e == |name| then [0] else EncodeName(name, e + 1)
  {
    hide Lowered, LabelEnd, LabelOk;
    assert |name[begin..LabelEnd(name, begin)]| == LabelEnd(name, begin) - begin;
  }

  lemma {:induction false} DecodeEncoded(m: Bytes, pos: nat, name: Bytes, begin: nat, encoded: nat, hops: nat)
    requires |name| < NAME_MAX && begin <= |name| && LabelsOk(name, begin) && (begin > 0 ==> 2 <= begin && name[begin - 1] == DOT)
    requires Has(m, pos, EncodeName(name, begin))
    ensures DecodeFrom(m, pos, if begin == 0 then [] else Lowered(name[..begin - 1]), encoded, false, hops) ==
      if hops > LabelCount(name, begin) then Some(Decoded(Lowered(name), encoded + |name| - begin + 2)) else None
    decreases |name| - begin
  {
    hide DecodeFrom, Has, EncodeName, AllCharacters, Joined, LabelsOk, LabelCount, LabelEnd, Lowered;
    var e, acc := LabelEnd(name, begin), if begin == 0 then [] else Lowered(name[..begin - 1]);
    var part := Lowered(name[begin..e]);
    LengthByte(name, begin);
    CharactersStay(name[begin..e]);
    EncodeParts(name, begin);
    JoinedPrefix(name, begin, e);
    if hops == 0 {
      NoHops(m, pos, acc, encoded);
    } else if e == |name| {
      HasParts(m, pos, [e - begin] + part, [0]);
      DecodeLabel(m, pos, part, acc, encoded, hops);
      DecodeEnd(m, pos + 1 + |part|, Lowered(name[..e]), encoded + 1 + |part|, hops - 1);
      assert name[..e] == name;
    } else {
      HasParts(m, pos, [e - begin] + part, EncodeName(name, e + 1));
      DecodeLabel(m, pos, part, acc, encoded, hops);
      DecodeEncoded(m, pos + 1 + |part|, name, e + 1, encoded + 1 + |part|, hops - 1);
    }
  }

  lemma NoHops(m: Bytes, pos: nat, acc: Bytes, encoded: nat)
    ensures DecodeFrom(m, pos, acc, encoded, false, 0) == None
  {
  }

  lemma QueryHolds(name: Bytes, id: nat, rest: Bytes)
    requires NameValid(name) && id <= ONES
    ensures |Query(name, id)| == |name| + 18 && Has(Query(name, id) + rest, 12, EncodeName(name, 0))
  {
    hide EncodeName, LabelsOk;
    EncodedLength(name, 0);
  }

  /** The question of a built query decodes to the name in lower case, and takes two bytes more than it. */
  lemma QueryRoundTrip(name: Bytes, id: nat, rest: Bytes)
    requires NameValid(name) && id <= ONES && |Query(name, id)| + |rest| <= MESSAGE_MAX
    ensures |Query(name, id)| == |name| + 18
    ensures DecodeName(Query(name, id) + rest, 12) == Some(Decoded(Lowered(name), |name| + 2))
  {
    hide EncodeName, DecodeFrom, Query, Has;
    QueryHolds(name, id, rest);
    LabelBudget(name, 0);
    DecodeEncoded(Query(name, id) + rest, 12, name, 0, 0, HOPS);
  }

  /** The longest run of labels: 127 single letters. */
  ghost function Longest(n: nat): Bytes
    requires 1 <= n
  {
    seq(2 * n - 1, i requires 0 <= i => if i % 2 == 0 then 97 else DOT)
  }

  lemma {:induction false} LongestLabels(name: Bytes, n: nat, k: nat)
    requires 1 <= n && k < n && name == Longest(n)
    ensures LabelsOk(name, 2 * k) && LabelCount(name, 2 * k) == n - k
    decreases n - k
  {
    assert LabelEnd(name, 2 * k) == 2 * k + 1 by {
      assert name[2 * k] == 97;
      assert 2 * k + 1 < |name| ==> name[2 * k + 1] == DOT;
    }
    assert name[2 * k..2 * k + 1] == [97];
    if k + 1 < n { LongestLabels(name, n, k + 1); }
  }

  /** The budget of 128 hops is exactly what the longest names need: one hop less and some valid name is lost. */
  lemma BudgetIsTight(id: nat)
    requires id <= ONES
    ensures var name := Longest(127);
      NameValid(name) && LabelCount(name, 0) == 127 && DecodeFrom(Query(name, id), 12, [], 0, false, HOPS - 1) == None
  {
    var name := Longest(127);
    LongestLabels(name, 127, 0);
    QueryHolds(name, id, []);
    assert Query(name, id) + [] == Query(name, id);
    DecodeEncoded(Query(name, id), 12, name, 0, 0, HOPS - 1);
  }

  // ---------------------------------------------------------------- arbitrary messages

  predicate NameCharacters(s: Bytes) { forall i | 0 <= i < |s| :: (Character(s[i]) && Lower(s[i]) == s[i]) || s[i] == DOT }

  lemma JoinedCharacters(acc: Bytes, part: Bytes)
    requires NameCharacters(acc) && AllCharacters(part)
    ensures NameCharacters(Joined(acc, Lowered(part))) && |Joined(acc, Lowered(part))| == |acc| + (if acc != [] then 1 else 0) + |part|
  {
    CharactersStay(part);
  }

  /** A decoded name fits its buffer and is in lower case; what it consumed lies inside the message. */
  lemma {:induction false} DecodedBounds(m: Bytes, pos: nat, acc: Bytes, encoded: nat, jumped: bool, hops: nat, offset: nat)
    requires |acc| < NAME_MAX && NameCharacters(acc)
    requires if jumped then offset + encoded <= |m| else pos == offset + encoded
    ensures var r := DecodeFrom(m, pos, acc, encoded, jumped, hops);
      r.Some? ==> |r.value.name| < NAME_MAX && NameCharacters(r.value.name) && offset + r.value.consumed <= |m|
    decreases hops
  {
    hide NameCharacters, AllCharacters, Lowered, Target, Joined;
    if hops > 0 && pos < |m| {
      var length := m[pos];
      if length >= 192 {
        if pos + 1 < |m| {
          var target := Target(m, pos);
          if 12 <= target < pos { DecodedBounds(m, target, acc, if jumped then encoded else encoded + 2, true, hops - 1, offset); }
        }
      } else if 0 < length < 64 && length <= |m| - (pos + 1) && |acc| + (if acc != [] then 1 else 0) + length < NAME_MAX {
        var part := m[pos + 1..pos + 1 + length];
        if AllCharacters(part) {
          JoinedCharacters(acc, part);
          DecodedBounds(m, pos + 1 + length, Joined(acc, Lowered(part)), if jumped then encoded else encoded + 1 + length, jumped, hops - 1, offset);
        }
      }
    }
  }

  /** Where the bytes at `pos` lead: past a label, or back to the target of a pointer. */
  function Next(m: Bytes, pos: nat): Option<nat> {
    if pos >= |m| then None
    else if m[pos] >= 192 then
      if pos + 1 >= |m| then None
      else
        var target := Target(m, pos);
        if target < 12 || target >= pos then None else Some(target)
    else if m[pos] >= 64 || m[pos] == 0 then None
    else Some(pos + 1 + m[pos])
  }

  ghost function After(m: Bytes, pos: nat, steps: nat): Option<nat>
    decreases steps
  {
    if steps == 0 then Some(pos)
    else match Next(m, pos) case None => None case Some(p) => After(m, p, steps - 1)
  }

  lemma {:induction false} AfterSum(m: Bytes, pos: nat, a: nat, b: nat)
    requires After(m, pos, a).Some?
    ensures After(m, pos, a + b) == After(m, After(m, pos, a).value, b)
    decreases a
  {
    if a > 0 { AfterSum(m, Next(m, pos).value, a - 1, b); }
  }

  /** What is left of a decoding after one label or pointer. */
  function Onward(m: Bytes, pos: nat, acc: Bytes, encoded: nat, jumped: bool, hops: nat): Option<Decoded>
    requires hops > 0 && Next(m, pos).Some?
  {
    if m[pos] >= 192 then DecodeFrom(m, Next(m, pos).value, acc, if jumped then encoded else encoded + 2, true, hops - 1)
    else if Next(m, pos).value > |m| then None
    else DecodeFrom(m, Next(m, pos).value, Joined(acc, Lowered(m[pos + 1..Next(m, pos).value])),
                    if jumped then encoded else encoded + 1 + m[pos], jumped, hops - 1)
  }

  /** A decoding that succeeds ends here, or goes on where the bytes lead. */
  lemma SuccessStep(m: Bytes, pos: nat, acc: Bytes, encoded: nat, jumped: bool, hops: nat)
    requires DecodeFrom(m, pos, acc, encoded, jumped, hops).Some?
    ensures pos < |m| && hops > 0 && (m[pos] == 0 ==> Next(m, pos) == None)
    ensures m[pos] != 0 ==> Next(m, pos).Some? && Onward(m, pos, acc, encoded, jumped, hops).Some?
  {
    hide Lowered, AllCharacters, Joined;
  }

  /** A decoding that succeeds has reached a name's end. */
  lemma {:induction false} SuccessEnds(m: Bytes, pos: nat, acc: Bytes, encoded: nat, jumped: bool, hops: nat) returns (k: nat)
    requires DecodeFrom(m, pos, acc, encoded, jumped, hops).Some?
    ensures After(m, pos, k).Some? && After(m, pos, k + 1) == None
    decreases hops
  {
    hide Lowered, AllCharacters, Joined, DecodeFrom, Target;
    SuccessStep(m, pos, acc, encoded, jumped, hops);
    if m[pos] == 0 {
      k := 0;
    } else {
      var p := Next(m, pos).value;
      if m[pos] >= 192 {
        k := SuccessEnds(m, p, acc, if jumped then encoded else encoded + 2, true, hops - 1);
      } else {
        k := SuccessEnds(m, p, Joined(acc, Lowered(m[pos + 1..p])), if jumped then encoded else encoded + 1 + m[pos], jumped, hops - 1);
      }
      k := k + 1;
    }
  }

  /** Coming back to the same place, a walk never ends. */
  lemma {:induction false} CycleGoesOn(m: Bytes, pos: nat, i: nat, j: nat, k: nat)
    requires i < j && After(m, pos, i).Some? && After(m, pos, i) == After(m, pos, j)
    ensures After(m, pos, k).Some?
    decreases k
  {
    if k >= j {
      CycleGoesOn(m, pos, i, j, k - (j - i));
      AfterSum(m, pos, i, k - j);
      AfterSum(m, pos, j, k - j);
    } else {
      EarlierToo(m, pos, k, j);
    }
  }

  lemma {:induction false} EarlierToo(m: Bytes, pos: nat, k: nat, j: nat)
    requires k <= j && After(m, pos, j).Some?
    ensures After(m, pos, k).Some?
    decreases k
  {
    if k > 0 { EarlierToo(m, Next(m, pos).value, k - 1, j - 1); }
  }

  /** Every message in which the name at `offset` runs into a cycle is rejected. */
  lemma CyclesRejected(m: Bytes, offset: nat, i: nat, j: nat)
    requires i < j && After(m, offset, i).Some? && After(m, offset, i) == After(m, offset, j)
    ensures DecodeName(m, offset) == None
  {
    if DecodeName(m, offset).Some? {
      var k := SuccessEnds(m, offset, [], 0, false, HOPS);
      CycleGoesOn(m, offset, i, j, k + 1);
    }
  }

  // ---------------------------------------------------------------- exactly the names that are read

  /** A label that lies in the message and consists of permitted characters; a pointer has none. */
  predicate LabelFine(m: Bytes, pos: nat)
    requires pos < |m|
  {
    m[pos] >= 192 || (pos + 1 + m[pos] <= |m| && AllCharacters(m[pos + 1..pos + 1 + m[pos]]))
  }

  /** `path` leads from label to label and through pointers to the end of a name: one place for each, and one for the end. */
  ghost predicate Spelled(m: Bytes, path: seq<nat>)
    decreases |path|
  {
    if |path| <= 1 then |path| == 1 && path[0] < |m| && m[path[0]] == 0
    else Next(m, path[0]) == Some(path[1]) && LabelFine(m, path[0]) && Spelled(m, path[1..])
  }

  /** The labels along a path in lower case, behind `acc`, with dots between them. */
  ghost function NameAlong(m: Bytes, path: seq<nat>, acc: Bytes): (name: Bytes)
    requires Spelled(m, path)
    ensures |acc| <= |name|
    decreases |path|
  {
    if |path| <= 1 then acc
    else NameAlong(m, path[1..], if m[path[0]] >= 192 then acc else Joined(acc, Lowered(m[path[0] + 1..path[1]])))
  }

  /** The bytes of a name where it stands: up to its end, or up to and with its first pointer. */
  ghost function Extent(m: Bytes, path: seq<nat>): nat
    requires Spelled(m, path)
    decreases |path|
  {
    if |path| <= 1 then 1 else if m[path[0]] >= 192 then 2 else 1 + m[path[0]] + Extent(m, path[1..])
  }

  lemma ThroughPointer(m: Bytes, pos: nat, acc: Bytes, encoded: nat, jumped: bool, hops: nat)
    requires hops > 0 && Next(m, pos).Some? && m[pos] >= 192
    ensures DecodeFrom(m, pos, acc, encoded, jumped, hops) == DecodeFrom(m, Next(m, pos).value, acc, if jumped then encoded else encoded + 2, true, hops - 1)
  {
    hide Lowered, AllCharacters, Joined;
  }

  lemma PastLabel(m: Bytes, pos: nat, acc: Bytes, encoded: nat, jumped: bool, hops: nat)
    requires hops > 0 && Next(m, pos).Some? && m[pos] < 192 && LabelFine(m, pos)
    ensures var q := Next(m, pos).value; var joined := Joined(acc, Lowered(m[pos + 1..q]));
      DecodeFrom(m, pos, acc, encoded, jumped, hops) ==
        if |joined| >= NAME_MAX then None else DecodeFrom(m, q, joined, if jumped then encoded else encoded + 1 + m[pos], jumped, hops - 1)
  {
    hide AllCharacters, Target;
  }

  /** One step of the path, seen from its start. */
  lemma AlongMore(m: Bytes, path: seq<nat>, acc: Bytes)
    requires Spelled(m, path) && |path| > 1
    ensures path[0] < |m| && Next(m, path[0]) == Some(path[1]) && LabelFine(m, path[0]) && Spelled(m, path[1..]) && path[1..][0] == path[1]
    ensures m[path[0]] < 192 ==> path[0] < path[1] <= |m|
    ensures NameAlong(m, path, acc) == NameAlong(m, path[1..], if m[path[0]] >= 192 then acc else Joined(acc, Lowered(m[path[0] + 1..path[1]])))
    ensures Extent(m, path) == if m[path[0]] >= 192 then 2 else 1 + m[path[0]] + Extent(m, path[1..])
  {
    hide AllCharacters, Lowered, Joined;
  }

  lemma {:induction false} DecodeSpelled(m: Bytes, path: seq<nat>, acc: Bytes, encoded: nat, jumped: bool, hops: nat)
    requires Spelled(m, path) && |acc| < NAME_MAX
    ensures DecodeFrom(m, path[0], acc, encoded, jumped, hops) ==
      if |path| <= hops && |NameAlong(m, path, acc)| < NAME_MAX
      then Some(Decoded(NameAlong(m, path, acc), if jumped then encoded else encoded + Extent(m, path))) else None
    decreases |path|
  {
    hide Lowered, AllCharacters, Joined, DecodeFrom, Next, Target, LabelFine, Spelled, NameAlong, Extent;
    if hops > 0 && |path| > 1 {
      AlongMore(m, path, acc);
      if m[path[0]] >= 192 {
        ThroughPointer(m, path[0], acc, encoded, jumped, hops);
        DecodeSpelled(m, path[1..], acc, if jumped then encoded else encoded + 2, true, hops - 1);
      } else {
        PastLabel(m, path[0], acc, encoded, jumped, hops);
        var joined := Joined(acc, Lowered(m[path[0] + 1..path[1]]));
        if |joined| < NAME_MAX { DecodeSpelled(m, path[1..], joined, if jumped then encoded else encoded + 1 + m[path[0]], jumped, hops - 1); }
      }
    } else {
      EndsHere(m, path, acc, encoded, jumped, hops);
    }
  }

  lemma EndsHere(m: Bytes, path: seq<nat>, acc: Bytes, encoded: nat, jumped: bool, hops: nat)
    requires Spelled(m, path) && (hops == 0 || |path| <= 1)
    ensures |path| > 0 && (hops == 0 ==> DecodeFrom(m, path[0], acc, encoded, jumped, hops) == None)
    ensures hops > 0 ==> NameAlong(m, path, acc) == acc && DecodeFrom(m, path[0], acc, encoded, jumped, hops) == Some(Decoded(acc, if jumped then encoded else encoded + Extent(m, path)))
  {
    hide Lowered, AllCharacters, Joined, Target;
  }

  lemma {:induction false} SuccessSpelled(m: Bytes, pos: nat, acc: Bytes, encoded: nat, jumped: bool, hops: nat) returns (path: seq<nat>)
    requires DecodeFrom(m, pos, acc, encoded, jumped, hops).Some?
    ensures Spelled(m, path) && path[0] == pos
    decreases hops
  {
    hide Lowered, AllCharacters, Joined, Target;
    SuccessStep(m, pos, acc, encoded, jumped, hops);
    path := [pos];
    if m[pos] != 0 {
      var p := Next(m, pos).value;
      var rest;
      if m[pos] >= 192 {
        rest := SuccessSpelled(m, p, acc, if jumped then encoded else encoded + 2, true, hops - 1);
      } else {
        rest := SuccessSpelled(m, p, Joined(acc, Lowered(m[pos + 1..p])), if jumped then encoded else encoded + 1 + m[pos], jumped, hops - 1);
      }
      path := [pos] + rest;
      assert path[1..] == rest;
    }
  }

  /**
    A name whose labels are all in order is read exactly when its labels, pointers and end take at most 128 steps and it
    fits its buffer; and then what is read are its labels.
  */
  lemma ReadExactly(m: Bytes, path: seq<nat>)
    requires Spelled(m, path) && |m| <= MESSAGE_MAX
    ensures DecodeName(m, path[0]) ==
      if |path| <= HOPS && |NameAlong(m, path, [])| < NAME_MAX then Some(Decoded(NameAlong(m, path, []), Extent(m, path))) else None
  {
    hide DecodeFrom, NameAlong, Extent;
    SpelledInside(m, path);
    DecodeSpelled(m, path, [], 0, false, HOPS);
  }

  lemma SpelledInside(m: Bytes, path: seq<nat>)
    requires Spelled(m, path)
    ensures path[0] < |m|
  {
  }

  /** Nothing else is read as a name. */
  lemma OnlySpelled(m: Bytes, offset: nat) returns (path: seq<nat>)
    requires DecodeName(m, offset).Some?
    ensures Spelled(m, path) && path[0] == offset && |path| <= HOPS && |NameAlong(m, path, [])| < NAME_MAX
  {
    hide DecodeFrom, NameAlong, Extent;
    path := SuccessSpelled(m, offset, [], 0, false, HOPS);
    ReadExactly(m, path);
  }

  // ---------------------------------------------------------------- the loops of the source

  /** The decoder as a loop over hops, with the name collected in place. */
  method ReadName(m: Bytes, offset: nat) returns (r: Option<Decoded>)
    ensures r == DecodeName(m, offset)
  {
    hide Lowered, AllCharacters, Joined, Target;
    if |m| > MESSAGE_MAX || offset >= |m| { return None; }
    var position: nat, encoded: nat, hops: nat := offset, 0, 0;
    var result: Bytes, jumped := [], false;
    while hops < HOPS
      invariant hops <= HOPS && DecodeFrom(m, offset, [], 0, false, HOPS) == DecodeFrom(m, position, result, encoded, jumped, HOPS - hops)
    {
      if position >= |m| { return None; }
      var length := m[position];
      if length >= 192 {
        if position + 1 >= |m| { return None; }
        var target := Target(m, position);
        if target < 12 || target >= position { return None; }
        if !jumped { encoded := encoded + 2; }
        jumped, position := true, target;
      } else {
        if length >= 64 { return None; }
        if length == 0 { return Some(Decoded(result, if jumped then encoded else encoded + 1)); }
        if length > |m| - (position + 1) || |result| + (if result != [] then 1 else 0) + length >= NAME_MAX { return None; }
        var part := m[position + 1..position + 1 + length];
        if !AllCharacters(part) { return None; }
        result := Joined(result, Lowered(part));
        if !jumped { encoded := encoded + 1 + length; }
        position := position + 1 + length;
      }
      hops := hops + 1;
    }
    r := None;
  }

  lemma Unpacked(name: Bytes)
    ensures NameValid(name) ==> |name| < NAME_MAX && LabelsOk(name, 0)
  {
  }

  /** `done` has been written from byte 12 on. */
  ghost function Filled(before: Bytes, done: Bytes): Bytes
    requires 12 + |done| <= |before|
  {
    before[..12] + done + before[12 + |done|..]
  }

  lemma FilledMore(before: Bytes, done: Bytes, part: Bytes)
    requires 12 + |done| + |part| <= |before|
    ensures var out, at := Filled(before, done), 12 + |done|;
      |out| == |before| && out[..at] + part + out[at + |part|..] == Filled(before, done + part)
  {
  }

  /** What the label loop has encoded so far; `begin` is where the rest starts. */
  ghost predicate Encoding(name: Bytes, done: Bytes, begin: nat) {
    && begin <= |name| && LabelsOk(name, 0) && LabelsOk(name, begin)
    && done + EncodeName(name, begin) == EncodeName(name, 0)
  }

  lemma EncodingStart(name: Bytes)
    requires LabelsOk(name, 0)
    ensures Encoding(name, [], 0)
  {
    assert [] + EncodeName(name, 0) == EncodeName(name, 0);
  }

  lemma EncodingStep(name: Bytes, done: Bytes, begin: nat)
    requires Encoding(name, done, begin)
    ensures var e := LabelEnd(name, begin);
      var part := [e - begin] + Lowered(name[begin..e]);
      && 1 <= e - begin <= 63
      && |done| + |part| + 1 <= |name| + 2
      && (e < |name| ==> Encoding(name, done + part, e + 1))
      && (e == |name| ==> done + part + [0] == EncodeName(name, 0) && |done| + |part| + 1 == |name| + 2)
  {
    hide EncodeName, LabelsOk;
    var e := LabelEnd(name, begin);
    var part := [e - begin] + Lowered(name[begin..e]);
    LengthByte(name, begin);
    EncodeParts(name, begin);
    EncodedLength(name, 0);
    EncodedLength(name, begin);
    if e < |name| {
      EncodedLength(name, e + 1);
      assert done + part + EncodeName(name, e + 1) == done + (part + EncodeName(name, e + 1));
    } else {
      assert done + part + [0] == done + (part + [0]);
    }
  }

  method WriteLabel(out: array<Octet>, name: Bytes, begin: nat, e: nat, at: nat, ghost before: Bytes, ghost done: Bytes)
    requires |before| == out.Length >= |name| + 14 && Encoding(name, done, begin) && e == LabelEnd(name, begin) && at == 12 + |done|
    requires 12 + |done| <= |before| && out[..] == Filled(before, done)
    modifies out
    ensures 12 + |done| + 1 + (e - begin) <= |before|
    ensures out[..] == Filled(before, done + ([e - begin] + Lowered(name[begin..e])))
  {
    hide Encoding, Lowered, Filled, LabelEnd;
    EncodingStep(name, done, begin);
    FilledMore(before, done, [e - begin] + Lowered(name[begin..e]));
    Write(out, at, [e - begin] + Lowered(name[begin..e]));
  }

  /** Labels are written as their ends are found. */
  method WriteName(out: array<Octet>, name: Bytes) returns (at: nat)
    requires LabelsOk(name, 0) && |name| + 14 <= out.Length
    modifies out
    ensures at == |name| + 14 && |EncodeName(name, 0)| == |name| + 2 && out[..] == Filled(old(out[..]), EncodeName(name, 0))
  {
    hide LabelsOk, EncodeName, Encoding, Filled, Lowered;
    ghost var before := out[..];
    ghost var done: Bytes := [];
    EncodingStart(name);
    EncodedLength(name, 0);
    assert out[..] == Filled(before, []) by { FilledNothing(before); }
    at := 12;
    var begin, i := 0, 0;
    while i < |name|
      invariant begin <= i <= |name| && forall j | begin <= j < i :: name[j] != DOT
      invariant Encoding(name, done, begin) && at == 12 + |done| <= |before| && out[..] == Filled(before, done)
    {
      if name[i] == DOT {
        EndBeyond(name, begin, i);
        EncodingStep(name, done, begin);
        WriteLabel(out, name, begin, i, at, before, done);
        done := done + ([i - begin] + Lowered(name[begin..i]));
        at, begin := at + 1 + (i - begin), i + 1;
      }
      i := i + 1;
    }
    EndBeyond(name, begin, i);
    EncodingStep(name, done, begin);
    WriteLabel(out, name, begin, i, at, before, done);
    done := done + ([i - begin] + Lowered(name[begin..i]));
    FilledMore(before, done, [0]);
    Write(out, at + 1 + (i - begin), [0]);
    at := at + 1 + (i - begin) + 1;
  }

  lemma FilledNothing(before: Bytes)
    requires 12 <= |before|
    ensures Filled(before, []) == before
  {
  }

  /** The query, written into the caller's buffer; a buffer too small or a bad name leaves it untouched. */
  method BuildQuery(out: array<Octet>, name: Bytes, id: nat) returns (ok: bool, written: nat)
    requires id <= ONES
    modifies out
    ensures ok <==> NameValid(name) && |name| + 18 <= out.Length
    ensures ok ==> written == |name| + 18 && out[..] == Query(name, id) + old(out[written..])
    ensures !ok ==> out[..] == old(out[..])
  {
    hide NameValid;
    written := 0;
    ok := CheckName(name);
    if !ok { return; }
    assert NameValid(name) ==> |name| < NAME_MAX && LabelsOk(name, 0) by { Unpacked(name); }
    if out.Length < |name| + 18 || |name| + 18 > MESSAGE_MAX { return false, 0; }
    written := FillQuery(out, name, id);
  }

  method FillQuery(out: array<Octet>, name: Bytes, id: nat) returns (written: nat)
    requires NameValid(name) && id <= ONES && |name| + 18 <= out.Length
    modifies out
    ensures written == |name| + 18 && out[..] == Query(name, id) + old(out[written..])
  {
    hide NameValid, EncodeName, LabelsOk, Query, Filled;
    Unpacked(name);
    var head := Put16(id) + [1, 0, 0, 1, 0, 0, 0, 0, 0, 0];
    ghost var before := out[..];
    Write(out, 0, head);
    ghost var headed := out[..];
    var at := WriteName(out, name);
    Write(out, at, [0, 1, 0, 1]);
    written := at + 4;
    QueryLaidOut(before, headed, name, id, head);
  }

  lemma QueryLaidOut(before: Bytes, headed: Bytes, name: Bytes, id: nat, head: Bytes)
    requires NameValid(name) && id <= ONES && |head| == 12 && head == Put16(id) + [1, 0, 0, 1, 0, 0, 0, 0, 0, 0]
    requires |name| + 18 <= |before| && headed == head + before[12..] && |EncodeName(name, 0)| == |name| + 2
    ensures var out, at := Filled(headed, EncodeName(name, 0)), |name| + 14;
      out[..at] + [0, 1, 0, 1] + out[at + 4..] == Query(name, id) + before[|name| + 18..]
  {
    hide EncodeName, LabelsOk;
    var code := EncodeName(name, 0);
    var out := Filled(headed, code);
    assert out[..|name| + 14] == head + code;
    assert out[|name| + 18..] == before[|name| + 18..];
  }
}
