/**
  What stands on a FAT32 disk, from the writer's side: numbers as little-endian words, names as padded 8.3 fields,
  directory entries and boot sectors field by field. Reading gives back exactly what was written.
*/
module Fat32Format {
  import opened Octets
  import opened Fat32Volume
  import opened Fat32Tree

  // ---------------------------------------------------------------- words

  lemma Two(v: nat)
    ensures Number(v, 2) == [v % 256, v / 256 % 256]
  {
    assert Number(v / 256, 1) == [v / 256 % 256] + Number(v / 256 / 256, 0);
  }

  lemma Four(v: nat)
    ensures Number(v, 4) == [v % 256, v / 256 % 256] + Number(v / 0x1_0000, 2)
  {
    assert v / 256 / 256 == v / 0x1_0000;
    assert Number(v, 4) == [v % 256] + Number(v / 256, 3);
    assert Number(v / 256, 3) == [v / 256 % 256] + Number(v / 256 / 256, 2);
  }

  lemma Words(v: nat)
    ensures v < 0x1_0000 ==> Number(v, 2) == [v % 256, v / 256]
    ensures Number(v, 4) == Number(v % 0x1_0000, 2) + Number(v / 0x1_0000, 2)
  {
    hide Number;
    Two(v);
    Four(v);
    Two(v % 0x1_0000);
    LowBytes(v);
  }

  lemma LowBytes(v: nat)
    ensures v % 0x1_0000 % 256 == v % 256 && v % 0x1_0000 / 256 == v / 256 % 256
  {
    var p, d, r := v / 0x1_0000, v / 256 % 256, v % 256;
    assert v == 0x1_0000 * p + (256 * d + r) by { assert v / 256 == 256 * p + d; }
    assert v % 0x1_0000 == 256 * d + r;
  }

  /** A word reads back as the number written, and only as that. */
  lemma Reads16(s: Bytes, i: nat, v: nat)
    requires v < 0x1_0000 && i + 2 <= |s|
    ensures Has(s, i, Number(v, 2)) <==> Little16(s, i) == v
  {
    hide Number;
    Words(v);
    HasSlice(s, i, Number(v, 2));
    assert s[i..i + 2] == [s[i], s[i + 1]];
  }

  lemma Reads32(s: Bytes, i: nat, v: nat)
    requires v < 0x1_0000_0000 && i + 4 <= |s|
    ensures Has(s, i, Number(v, 4)) <==> Little32(s, i) == v
  {
    hide Little16, Number;
    var lo, hi := v % 0x1_0000, v / 0x1_0000;
    Words(v);
    Reads16(s, i, lo);
    Reads16(s, i + 2, hi);
    HasSlice(s, i, Number(v, 4));
    HasSlice(s, i, Number(lo, 2));
    HasSlice(s, i + 2, Number(hi, 2));
    assert s[i..i + 4] == s[i..i + 2] + s[i + 2..i + 4];
    if Has(s, i, Number(v, 4)) {
      assert s[i..i + 4][..2] == Number(lo, 2) && s[i..i + 4][2..] == Number(hi, 2);
    }
  }

  // ---------------------------------------------------------------- names

  const RESERVED: string := "\"*+,./:;<=>?[\\]|"

  /** The characters a short name may have: the visible ones but the reserved. */
  lemma NameChars(c: Octet)
    ensures NameChar(c) <==> '!' <= c as char <= '~' && c as char !in RESERVED
  {
  }

  /** Upper case identifies exactly the two cases of a letter, and is one of them. */
  lemma UpperLaw(c: Octet, d: Octet)
    ensures Upper(c) == Upper(d) <==> SameLetter(c, d)
    ensures SameLetter(c, Upper(c)) && !('a' <= Upper(c) as char <= 'z')
  {
  }

  function Spaces(n: nat): (s: Bytes)
    ensures |s| == n
  {
    seq(n, i => SPACE)
  }

  predicate Spellable(p: Bytes) { forall c | c in p :: NameChar(c) }

  predicate NameOk(base: Bytes, ext: Bytes) { 1 <= |base| <= 8 && |ext| <= 3 && Spellable(base) && Spellable(ext) }

  /** A name as it stands in an entry. */
  function Raw(base: Bytes, ext: Bytes): (raw: Bytes)
    requires |base| <= 8 && |ext| <= 3
    ensures |raw| == 11
  {
    base + Spaces(8 - |base|) + ext + Spaces(3 - |ext|)
  }

  /** A name as it is shown. */
  function Shown(base: Bytes, ext: Bytes): Bytes { Uppered(base) + if ext == [] then [] else [PERIOD] + Uppered(ext) }

  lemma {:induction false} StemIs(p: Bytes, n: nat)
    requires SPACE !in p
    ensures Stem(p + Spaces(n)) == |p|
  {
    var q := p + Spaces(n);
    if p != [] {
      assert q[1..] == p[1..] + Spaces(n);
      StemIs(p[1..], n);
    }
  }

  lemma PartIs(p: Bytes, n: nat)
    requires Spellable(p)
    ensures PartOk(p + Spaces(n)) && Stem(p + Spaces(n)) == |p| && (p + Spaces(n))[..|p|] == p
  {
    assert !NameChar(SPACE);
    StemIs(p, n);
  }

  /** Every permitted base and extension, padded, gives the name in upper case with a dot before a nonempty extension. */
  lemma NameReads(base: Bytes, ext: Bytes)
    requires NameOk(base, ext)
    ensures ShortName(Raw(base, ext)) == Some(Shown(base, ext))
  {
    var raw := Raw(base, ext);
    assert raw[..8] == base + Spaces(8 - |base|) && raw[8..] == ext + Spaces(3 - |ext|);
    PartIs(base, 8 - |base|);
    PartIs(ext, 3 - |ext|);
  }

  lemma PartSplits(p: Bytes)
    requires PartOk(p)
    ensures p == p[..Stem(p)] + Spaces(|p| - Stem(p)) && Spellable(p[..Stem(p)])
  {
    hide Stem, NameChar;
    var k := Stem(p);
    var q := p[..k] + Spaces(|p| - k);
    forall i | 0 <= i < |p| ensures q[i] == p[i] {}
    assert q == p;
    forall c | c in p[..k] ensures NameChar(c) { var i :| 0 <= i < k && p[i] == c; }
  }

  /** And nothing else has a name. */
  lemma NameWritten(raw: Bytes) returns (base: Bytes, ext: Bytes)
    requires |raw| == 11 && ShortName(raw).Some?
    ensures NameOk(base, ext) && raw == Raw(base, ext) && ShortName(raw) == Some(Shown(base, ext))
  {
    var b, e := raw[..8], raw[8..];
    base, ext := b[..Stem(b)], e[..Stem(e)];
    PartSplits(b);
    PartSplits(e);
    assert raw == b + e;
    NameReads(base, ext);
  }

  ghost predicate SameLetters(p: Bytes, q: Bytes) { |p| == |q| && forall i | 0 <= i < |p| :: SameLetter(p[i], q[i]) }

  lemma UpperedLaw(p: Bytes, q: Bytes)
    ensures Uppered(p) == Uppered(q) <==> SameLetters(p, q)
  {
    if Uppered(p) == Uppered(q) {
      assert |p| == |Uppered(p)| == |q|;
      forall i | 0 <= i < |p| ensures SameLetter(p[i], q[i]) {
        assert Uppered(p)[i] == Uppered(q)[i];
        UpperLaw(p[i], q[i]);
      }
    }
    if SameLetters(p, q) {
      forall i | 0 <= i < |p| ensures Uppered(p)[i] == Uppered(q)[i] { UpperLaw(p[i], q[i]); }
    }
  }

  lemma NoDot(p: Bytes)
    requires Spellable(p)
    ensures PERIOD !in Uppered(p)
  {
    forall i | 0 <= i < |p| ensures Uppered(p)[i] != PERIOD {
      assert p[i] in p && NameChar(p[i]);
    }
  }

  lemma {:induction false} DotSplits(a: Bytes, b: Bytes, c: Bytes, d: Bytes)
    requires PERIOD !in a && PERIOD !in c && a + b == c + d && (b == [] || b[0] == PERIOD) && (d == [] || d[0] == PERIOD)
    ensures a == c && b == d
  {
    var s := a + b;
    assert forall i | 0 <= i < |c| :: s[i] == c[i];
    assert |a| < |s| ==> s[|a|] == b[0];
    assert |c| < |s| ==> s[|c|] == d[0];
    assert s[..|a|] == a && s[..|c|] == c && s[|a|..] == b && s[|c|..] == d;
  }

  /** Two entries show the same name exactly when their raw names agree up to the case of letters. */
  lemma NamesCollide(p: Bytes, q: Bytes)
    requires |p| == |q| == 11 && ShortName(p).Some? && ShortName(q).Some?
    ensures ShortName(p) == ShortName(q) <==> SameLetters(p, q)
  {
    var a, x := NameWritten(p);
    var b, y := NameWritten(q);
    hide ShortName, Raw, Shown, SameLetters, NameOk;
    ShownAlike(a, x, b, y);
    RawAlike(a, x, b, y);
  }

  lemma ShownAlike(a: Bytes, x: Bytes, b: Bytes, y: Bytes)
    requires NameOk(a, x) && NameOk(b, y)
    ensures Shown(a, x) == Shown(b, y) <==> SameLetters(a, b) && SameLetters(x, y)
  {
    hide NameChar;
    UpperedLaw(a, b);
    UpperedLaw(x, y);
    NoDot(a);
    NoDot(b);
    hide Uppered, SameLetters, Spellable;
    var s, t := if x == [] then [] else [PERIOD] + Uppered(x), if y == [] then [] else [PERIOD] + Uppered(y);
    if Shown(a, x) == Shown(b, y) {
      DotSplits(Uppered(a), s, Uppered(b), t);
      assert Uppered([]) == [] by { NoLetters(); }
      if x != [] { assert s[1..] == Uppered(x); }
      if y != [] { assert t[1..] == Uppered(y); }
    }
    if SameLetters(a, b) && SameLetters(x, y) { AlikeLength(x, y); }
  }

  lemma NoLetters()
    ensures Uppered([]) == []
  {
  }

  lemma AlikeLength(p: Bytes, q: Bytes)
    requires SameLetters(p, q)
    ensures |p| == |q|
  {
  }

  lemma RawAlike(a: Bytes, x: Bytes, b: Bytes, y: Bytes)
    requires NameOk(a, x) && NameOk(b, y)
    ensures SameLetters(Raw(a, x), Raw(b, y)) <==> SameLetters(a, b) && SameLetters(x, y)
  {
    hide NameChar, SameLetter;
    var p, q := Raw(a, x), Raw(b, y);
    assert p[..8] == a + Spaces(8 - |a|) && p[8..] == x + Spaces(3 - |x|);
    assert q[..8] == b + Spaces(8 - |b|) && q[8..] == y + Spaces(3 - |y|);
    SpacesAlike();
    if SameLetters(p, q) {
      PartsAlike(p[..8], q[..8], a, b);
      PartsAlike(p[8..], q[8..], x, y);
    }
    if SameLetters(a, b) && SameLetters(x, y) {
      forall i | 0 <= i < 11 ensures SameLetter(p[i], q[i]) {
        if i < 8 { assert p[i] == p[..8][i] && q[i] == q[..8][i]; } else { assert p[i] == p[8..][i - 8] && q[i] == q[8..][i - 8]; }
      }
    }
  }

  lemma SpacesAlike()
    ensures SameLetter(SPACE, SPACE)
  {
  }

  /** Equal up to case, padding included, means equally long. */
  lemma PartsAlike(p: Bytes, q: Bytes, a: Bytes, b: Bytes)
    requires SameLetters(p, q) && Spellable(a) && Spellable(b) && |a| <= |p| && |b| <= |q|
    requires p == a + Spaces(|p| - |a|) && q == b + Spaces(|q| - |b|)
    ensures SameLetters(a, b)
  {
    assert !NameChar(SPACE);
    assert forall i | 0 <= i < |a| :: p[i] == a[i] && a[i] in a;
    assert forall i | 0 <= i < |b| :: q[i] == b[i] && b[i] in b;
    if |a| < |p| { assert p[|a|] == SPACE && SameLetter(p[|a|], q[|a|]); }
    if |b| < |p| { assert q[|b|] == SPACE && SameLetter(p[|b|], q[|b|]); }
    forall i | 0 <= i < |a| ensures SameLetter(a[i], b[i]) { assert a[i] == p[i] && b[i] == q[i]; }
  }

  // ---------------------------------------------------------------- directory entries

  const DIRECTORY: nat := 16
  const LABEL: nat := 8

  /** The attribute byte of a file or directory. */
  predicate AttrOk(attr: nat) { attr < 64 && attr / LABEL % 2 == 0 }

  predicate IsDir(attr: nat) { attr / DIRECTORY % 2 == 1 }

  /** An entry with this raw name, attributes, first cluster and size; the times and dates may be anything. */
  predicate EntryHas(e: Bytes, raw: Bytes, attr: nat, child: nat, size: nat)
    requires |raw| == 11 && attr < 256 && child < 0x1_0000_0000 && size < 0x1_0000_0000
  {
    && |e| == 32 && Has(e, 0, raw) && e[11] == attr
    && Has(e, 20, Number(child / 0x1_0000, 2)) && Has(e, 26, Number(child % 0x1_0000, 2)) && Has(e, 28, Number(size, 4))
  }

  lemma FieldsRead(e: Bytes, raw: Bytes, attr: nat, child: nat, size: nat)
    requires |raw| == 11 && attr < 256 && child < 0x1_0000_0000 && size < 0x1_0000_0000 && EntryHas(e, raw, attr, child, size)
    ensures Little16(e, 26) + 65536 * Little16(e, 20) == child && Little32(e, 28) == size && e[..11] == raw && e[0] == raw[0]
  {
    Reads16(e, 20, child / 0x1_0000);
    Reads16(e, 26, child % 0x1_0000);
    Reads32(e, 28, size);
    assert e[0..11] == e[..11];
  }

  /** An entry written for a file or directory parses as that file or directory. */
  lemma EntryParses(e: Bytes, base: Bytes, ext: Bytes, attr: nat, child: nat, size: nat, first: nat, parent: nat)
    requires NameOk(base, ext) && AttrOk(attr) && child < 0x1_0000_0000 && size < 0x1_0000_0000 && (IsDir(attr) ==> size == 0)
    requires EntryHas(e, Raw(base, ext), attr, child, size)
    ensures Parse(e, first, parent) == Entry(Shown(base, ext), child, size, IsDir(attr))
  {
    FieldsRead(e, Raw(base, ext), attr, child, size);
    NameReads(base, ext);
    assert base[0] in base && NameChar(base[0]) && e[0] == base[0];
    hide ShortName, Raw, Shown, Little16, Little32;
  }

  /** Whatever parses as a file or directory was written for it. */
  lemma EntryWritten(e: Bytes, first: nat, parent: nat) returns (base: Bytes, ext: Bytes)
    requires |e| == 32 && Parse(e, first, parent).Entry?
    ensures var item := Parse(e, first, parent);
      && NameOk(base, ext) && AttrOk(e[11]) && item.child < 0x1_0000_0000 && item.size < 0x1_0000_0000 && (item.dir ==> item.size == 0)
      && EntryHas(e, Raw(base, ext), e[11], item.child, item.size) && item == Entry(Shown(base, ext), item.child, item.size, IsDir(e[11]))
  {
    var item := Parse(e, first, parent);
    base, ext := NameWritten(e[..11]);
    assert e[0..11] == e[..11];
    var lo, hi := Little16(e, 26), Little16(e, 20);
    assert item.child == lo + 65536 * hi && item.child % 0x1_0000 == lo && item.child / 0x1_0000 == hi;
    Reads16(e, 20, hi);
    Reads16(e, 26, lo);
    Reads32(e, 28, item.size);
  }

  /** The "." and ".." entries are passed over exactly when they are directories without size that lead to where they should. */
  lemma DotParses(e: Bytes, dots: nat, attr: nat, child: nat, size: nat, first: nat, parent: nat)
    requires 1 <= dots <= 2 && AttrOk(attr) && child < 0x1_0000_0000 && size < 0x1_0000_0000
    requires EntryHas(e, Padded(dots), attr, child, size)
    ensures Parse(e, first, parent) == if IsDir(attr) && size == 0 && child == (if dots == 1 then first else parent) then Skip else Invalid
  {
    FieldsRead(e, Padded(dots), attr, child, size);
    assert Padded(1)[1] != Padded(2)[1];
    hide Little16, Little32;
  }

  /** Only a zero byte ends a directory. Deleted entries, the parts of long names, volume labels and the two dot entries are passed over. */
  lemma PassedOver(e: Bytes, first: nat, parent: nat)
    requires |e| == 32
    ensures Parse(e, first, parent) == EndMark <==> e[0] == 0
    ensures e[0] != 0 && (e[0] == 0xE5 || e[11] == 0x0F || (e[11] < 64 && e[11] / LABEL % 2 == 1 && !IsDir(e[11]))) ==> Parse(e, first, parent) == Skip
    ensures Parse(e, first, parent) == Skip ==> e[0] in {0xE5, PERIOD} || e[11] / LABEL % 2 == 1
  {
  }

  // ---------------------------------------------------------------- paths

  /** A component that stands between two slashes. */
  predicate Step(c: Bytes) { ComponentOk(c) && SLASH !in c }

  function Steps(cs: seq<Bytes>): Bytes { if cs == [] then [] else [SLASH] + cs[0] + Steps(cs[1..]) }

  lemma {:induction false} StepEnds(path: Bytes, from: nat, c: Bytes)
    requires from + |c| <= |path| && path[from..from + |c|] == c && SLASH !in c && (from + |c| == |path| || path[from + |c|] == SLASH)
    ensures Component(path, from) == from + |c|
    decreases |c|
  {
    if c != [] {
      assert path[from] == path[from..from + |c|][0] == c[0];
      assert path[from + 1..from + |c|] == path[from..from + |c|][1..];
      StepEnds(path, from + 1, c[1..]);
    }
  }

  /** Components joined by slashes are found again. */
  lemma {:induction false} StepsOk(path: Bytes, from: nat, cs: seq<Bytes>)
    requires cs != [] && (forall c | c in cs :: Step(c)) && 1 <= from <= |path| && path[from - 1..] == Steps(cs)
    ensures ComponentsOk(path, from)
    decreases |cs|
  {
    hide ComponentOk;
    var c, rest, e := cs[0], Steps(cs[1..]), from + |cs[0]|;
    assert cs[0] in cs && Step(c);
    StepParts(path, from, c, rest);
    if cs[1..] != [] {
      assert rest[0] == SLASH && path[e] == path[e..][0];
      StepEnds(path, from, c);
      StepsOk(path, e + 1, cs[1..]);
    } else {
      StepEnds(path, from, c);
    }
  }

  lemma StepParts(path: Bytes, from: nat, c: Bytes, rest: Bytes)
    requires 1 <= from <= |path| && path[from - 1..] == [SLASH] + c + rest
    ensures var e := from + |c|; e <= |path| && path[from..e] == c && path[e..] == rest
  {
    var e, tail := from + |c|, path[from - 1..];
    assert |tail| == |path| - from + 1;
    assert path[from..e] == tail[1..1 + |c|];
    assert path[e..] == tail[1 + |c|..];
  }

  lemma {:induction false} ComponentHasNoSlash(path: Bytes, from: nat)
    requires from <= |path|
    ensures var e := Component(path, from); SLASH !in path[from..e] && (e < |path| ==> path[e] == SLASH)
    decreases |path| - from
  {
    if from < |path| && path[from] != SLASH {
      ComponentHasNoSlash(path, from + 1);
      var e := Component(path, from);
      assert path[from..e] == [path[from]] + path[from + 1..e];
    }
  }

  lemma {:induction false} StepsOf(path: Bytes, from: nat) returns (cs: seq<Bytes>)
    requires 1 <= from <= |path| && path[from - 1] == SLASH && ComponentsOk(path, from)
    ensures cs != [] && (forall c | c in cs :: Step(c)) && path[from - 1..] == Steps(cs)
    decreases |path| - from
  {
    var e := Component(path, from);
    ComponentHasNoSlash(path, from);
    var c := path[from..e];
    if e == |path| {
      cs := [c];
      assert Steps(cs) == [SLASH] + c + Steps([]);
      assert path[from - 1..] == [SLASH] + c;
    } else {
      var rest := StepsOf(path, e + 1);
      cs := [c] + rest;
      assert cs[1..] == rest && path[from - 1..] == [SLASH] + c + path[e..];
    }
  }

  /** A valid path is the root, or is made of one or more proper components, each after its slash. */
  lemma PathsAre(path: Bytes)
    ensures PathValid(path) <==> |path| < 128 && (path == [SLASH] || exists cs :: Proper(path, cs))
  {
    hide ComponentsOk;
    if PathValid(path) && |path| > 1 {
      var cs := StepsOf(path, 1);
      assert path[0..] == path;
      assert Proper(path, cs);
    }
    if cs :| Proper(path, cs) {
      assert path[0..] == path && path[0] == SLASH;
      FirstStep(cs);
      StepsOk(path, 1, cs);
    }
  }

  ghost predicate Proper(path: Bytes, cs: seq<Bytes>) { cs != [] && (forall c | c in cs :: Step(c)) && path == Steps(cs) }

  lemma FirstStep(cs: seq<Bytes>)
    requires cs != [] && forall c | c in cs :: Step(c)
    ensures |Steps(cs)| > 1 && Steps(cs)[0] == SLASH
  {
    assert cs[0] in cs;
  }

  // ---------------------------------------------------------------- boot sectors

  /** What a formatter decides. `flags` is below 16 for mirrored tables, 128 plus the number of the table in use otherwise. */
  datatype Format = Format(spc: Octet, reserved: nat, fats: Octet, media: Octet, total: nat, fatSize: nat, flags: nat, root: nat)

  predicate InWords(p: Format) {
    p.reserved < 0x1_0000 && p.total < 0x1_0000_0000 && p.fatSize < 0x1_0000_0000 && p.flags < 0x1_0000 && p.root < 0x1_0000_0000
  }

  /** A boot sector with these parameters; its jump, name, geometry and code may be anything. */
  predicate BootHas(boot: Bytes, p: Format)
    requires InWords(p)
  {
    && |boot| == SECTOR && Has(boot, 11, Number(512, 2)) && boot[13] == p.spc && Has(boot, 14, Number(p.reserved, 2)) && boot[16] == p.fats
    && Has(boot, 17, [0, 0, 0, 0]) && boot[21] == p.media && Has(boot, 22, [0, 0]) && Has(boot, 28, [0, 0, 0, 0])
    && Has(boot, 32, Number(p.total, 4)) && Has(boot, 36, Number(p.fatSize, 4)) && Has(boot, 40, Number(p.flags, 2)) && Has(boot, 42, [0, 0])
    && Has(boot, 44, Number(p.root, 4)) && Has(boot, 510, [0x55, 0xAA])
  }

  /** Room for `clusters` data clusters of `spc` sectors behind the tables, and no room for one more. */
  predicate HoldsClusters(p: Format, clusters: nat) {
    var data := p.reserved + p.fats * p.fatSize;
    data + clusters * p.spc <= p.total < data + (clusters + 1) * p.spc
  }

  /** The geometry read from a boot sector is the one it was formatted with. */
  lemma BootReads(boot: Bytes, p: Format)
    requires InWords(p) && BootHas(boot, p) && 0 < p.spc && p.reserved + p.fats * p.fatSize <= p.total
    ensures var g := BootGeometry(boot);
      && g.total == p.total && g.fatStart == p.reserved && g.fatSectors == p.fatSize && g.spc == p.spc && g.fats == p.fats && g.root == p.root
      && g.dataStart == p.reserved + p.fats * p.fatSize && HoldsClusters(p, g.clusters)
      && (p.flags < 128 ==> g.mirrored && g.active == 0) && (128 <= p.flags < 144 ==> !g.mirrored && g.active == p.flags - 128)
    ensures SignatureOk(boot) <==> p.media >= 0xF0
  {
    hide Little16, Little32, Has, Clusters, HoldsClusters, BootHas, Overhead;
    FormatReads(boot, p);
    ClustersHeld(p);
  }

  /** The volumes taken: FAT32 by their cluster count, inside the device, with a table long enough, one in use that exists, and a root on the volume. */
  lemma BootTaken(boot: Bytes, p: Format, sectors: nat)
    requires InWords(p) && BootHas(boot, p)
    ensures BootOk(boot, sectors) <==>
      && p.media >= 0xF0 && p.spc in {1, 2, 4, 8, 16, 32, 64, 128} && 0 < p.reserved && 1 <= p.fats <= 2 && 0 < p.fatSize
      && (p.flags < 16 || 128 <= p.flags < 128 + p.fats)
      && p.reserved + p.fats * p.fatSize < p.total <= sectors
      && exists n: nat {:trigger HoldsClusters(p, n)} :: HoldsClusters(p, n) && 65525 <= n <= 1048576 && n + 2 <= 128 * p.fatSize && 2 <= p.root < n + 2
  {
    hide Little16, Little32, Has, Clusters, HoldsClusters, BootHas;
    FormatReads(boot, p);
    if 1 <= p.fats <= 2 { FlagsTaken(p.flags, p.fats); }
    if 0 < p.spc && p.reserved + p.fats * p.fatSize < p.total {
      ClustersHeld(p);
      var g := BootGeometry(boot);
      forall n: nat {:trigger HoldsClusters(p, n)} | HoldsClusters(p, n) ensures n == g.clusters { OneCount(p, n, g.clusters); }
    }
  }

  lemma FlagsTaken(flags: nat, fats: nat)
    requires 1 <= fats <= 2
    ensures flags / 256 == 0 && flags / 16 % 8 == 0 && (if flags / 128 % 2 == 0 then 0 else flags % 16) < fats <==> flags < 16 || 128 <= flags < 128 + fats
  {
    assert flags / 128 == flags / 16 / 8;
  }

  lemma OneCount(p: Format, n: nat, k: nat)
    requires 0 < p.spc && HoldsClusters(p, n) && HoldsClusters(p, k)
    ensures n == k
  {
    if n < k { Times(n, k, p.spc); } else if k < n { Times(k, n, p.spc); }
  }

  lemma FormatReads(boot: Bytes, p: Format)
    requires InWords(p) && BootHas(boot, p)
    ensures Little16(boot, 11) == 512 && Little16(boot, 14) == p.reserved && Little16(boot, 40) == p.flags && Little32(boot, 44) == p.root
    ensures Little32(boot, 32) == p.total && Little32(boot, 36) == p.fatSize && boot[13] == p.spc && boot[16] == p.fats && boot[21] == p.media
    ensures Little16(boot, 17) == 0 && Little16(boot, 19) == 0 && Little16(boot, 22) == 0 && Little16(boot, 42) == 0 && Little32(boot, 28) == 0
    ensures |boot| == SECTOR && boot[510] == 0x55 && boot[511] == 0xAA
  {
    hide Little16, Little32;
    Reads16(boot, 11, 512);
    Reads16(boot, 14, p.reserved);
    Reads16(boot, 40, p.flags);
    Reads32(boot, 32, p.total);
    Reads32(boot, 36, p.fatSize);
    Reads32(boot, 44, p.root);
    ZerosRead(boot);
    SignatureReads(boot);
  }

  lemma ClustersHeld(p: Format)
    requires 0 < p.spc && p.reserved + p.fats * p.fatSize <= p.total
    ensures Overhead(p.reserved, p.fats, p.fatSize) == p.reserved + p.fats * p.fatSize
    ensures HoldsClusters(p, Clusters(p.total, Overhead(p.reserved, p.fats, p.fatSize), p.spc))
  {
    Whole(p.total - (p.reserved + p.fats * p.fatSize), p.spc);
  }

  lemma SignatureReads(boot: Bytes)
    requires |boot| == SECTOR && Has(boot, 510, [0x55, 0xAA])
    ensures boot[510] == 0x55 && boot[511] == 0xAA
  {
    assert boot[510 + 0] == [0x55, 0xAA][0] && boot[510 + 1] == [0x55, 0xAA][1];
  }

  lemma ZerosRead(boot: Bytes)
    requires |boot| == SECTOR && Has(boot, 17, [0, 0, 0, 0]) && Has(boot, 22, [0, 0]) && Has(boot, 28, [0, 0, 0, 0]) && Has(boot, 42, [0, 0])
    ensures Little16(boot, 17) == 0 && Little16(boot, 19) == 0 && Little16(boot, 22) == 0 && Little16(boot, 42) == 0 && Little32(boot, 28) == 0
  {
    Words(0);
    HasSlice(boot, 17, [0, 0, 0, 0]);
    HasSlice(boot, 17, [0, 0]);
    HasSlice(boot, 19, [0, 0]);
    assert boot[17..21][..2] == boot[17..19] == [0, 0] && boot[17..21][2..] == boot[19..21] == [0, 0];
    Reads16(boot, 17, 0);
    Reads16(boot, 19, 0);
    Reads16(boot, 22, 0);
    Reads16(boot, 42, 0);
    Reads32(boot, 28, 0);
  }

  lemma Whole(n: nat, d: nat)
    requires 0 < d
    ensures n / d * d <= n < (n / d + 1) * d
  {
    assert (n / d + 1) * d == n / d * d + d;
  }

  // ---------------------------------------------------------------- where things are

  /** The data clusters, counted from two, lie one behind the other from the start of the data area, and so do the copies of the table. */
  lemma LaidOut(g: Geometry, c: nat, relative: nat)
    requires 2 <= c
    ensures ClusterLba(g, 2) == g.dataStart && ClusterLba(g, c + 1) == ClusterLba(g, c) + g.spc
    ensures FatLba(g.(active := 0), 0) == g.fatStart && FatLba(g, relative + 1) == FatLba(g, relative) + 1
    ensures FatLba(g.(active := g.active + 1), relative) == FatLba(g, relative) + g.fatSectors
  {
    assert (c + 1 - 2) * g.spc == (c - 2) * g.spc + g.spc;
    assert (g.active + 1) * g.fatSectors == g.active * g.fatSectors + g.fatSectors;
  }

  // ---------------------------------------------------------------- the table

  /** Sector `relative` of a table holds the links of its 128 clusters; the top four bits are anybody's. */
  predicate TableHas(sector: Bytes, links: seq<nat>) {
    |sector| == SECTOR && |links| == 128 && forall i | 0 <= i < 128 :: links[i] < 0x1_0000_0000 && Has(sector, 4 * i, Number(links[i], 4))
  }

  /** The entry of a cluster is its link, below the top four bits. */
  lemma LinkReads(sector: Bytes, links: seq<nat>, cluster: nat)
    requires TableHas(sector, links)
    ensures EntryIn(sector, cluster) == links[cluster % 128] % 0x1000_0000
  {
    var i := cluster % 128;
    Reads32(sector, 4 * i, links[i]);
  }
}
