/** The manifest cache and the record of installed manifests (crates/steam-client/src/manifest.rs:41-160), with writes
    that may stop after any byte. */
module ManifestCache {
  import opened Base
  import opened Whitespace
  import opened Manifests
  import opened ManifestSections

  type Digest = b: Bytes | |b| == 20 witness Zeros(20)

  type Files = map<string, Bytes>

  /** SHA-1, the ZIP reader and the protobuf decoders. */
  datatype Env = Env(sha: Bytes -> Digest, extract: Bytes -> Option<Bytes>, decoders: Decoders)

  // ---------------------------------------------------------------- printed numbers and hashes

  function Digit(d: nat): (c: char)
    requires d < 16
    ensures !IsSpace(c) && c as int < 128 && c != '_' && c != '.'
  {
    if d < 10 then '0' + d as char else 'a' + (d - 10) as char
  }

  lemma DigitInjective(d: nat, e: nat)
    requires d < 16 && e < 16 && Digit(d) == Digit(e)
    ensures d == e
  {
  }

  function Decimal(n: nat): (s: string)
    ensures s != "" && '_' !in s && '.' !in s
  {
    if n < 10 then [Digit(n)] else Decimal(n / 10) + [Digit(n % 10)]
  }

  lemma {:induction false} DecimalInjective(m: nat, n: nat)
    requires Decimal(m) == Decimal(n)
    ensures m == n
  {
    var s, t := Decimal(m), Decimal(n);
    assert s[|s| - 1] == Digit(m % 10) && t[|t| - 1] == Digit(n % 10);
    DigitInjective(m % 10, n % 10);
    if m >= 10 && n >= 10 {
      assert Decimal(m / 10) == s[..|s| - 1] && Decimal(n / 10) == t[..|t| - 1];
      DecimalInjective(m / 10, n / 10);
    }
  }

  /** The number that decimal digits stand for, the first counting most. */
  function Numeral(s: string): int
  {
    if s == "" then 0 else 10 * Numeral(s[..|s| - 1]) + (s[|s| - 1] as int - 0x30)
  }

  /** The printed form is the usual one: digits only, no leading zero, the value back. */
  lemma {:induction false} DecimalExactly(n: nat)
    ensures Numeral(Decimal(n)) == n
    ensures forall i | 0 <= i < |Decimal(n)| :: 0x30 <= Decimal(n)[i] as int <= 0x39
    ensures Decimal(n)[0] as int == 0x30 <==> n == 0
  {
    if n >= 10 {
      DecimalExactly(n / 10);
      assert Decimal(n)[..|Decimal(n)| - 1] == Decimal(n / 10);
    } else {
      assert [Digit(n)][..0] == "";
    }
  }

  /** Two lower-case digits a byte. */
  function Hex(b: Bytes): (s: string)
    ensures |s| == 2 * |b| && forall i | 0 <= i < |s| :: !IsSpace(s[i]) && s[i] as int < 128
  {
    if b == [] then "" else [Digit(b[0] / 16), Digit(b[0] % 16)] + Hex(b[1..])
  }

  lemma {:induction false} HexInjective(a: Bytes, b: Bytes)
    requires Hex(a) == Hex(b)
    ensures a == b
  {
    if a != [] {
      var s := Hex(a);
      assert b != [] && s[0] == Digit(a[0] / 16) == Digit(b[0] / 16) && s[1] == Digit(a[0] % 16) == Digit(b[0] % 16);
      DigitInjective(a[0] / 16, b[0] / 16);
      DigitInjective(a[0] % 16, b[0] % 16);
      assert s[2..] == Hex(a[1..]) == Hex(b[1..]);
      HexInjective(a[1..], b[1..]);
      assert a == [a[0]] + a[1..] && b == [b[0]] + b[1..];
    }
  }

  lemma {:induction false} HexExactly(b: Bytes, i: nat)
    requires i < |b|
    ensures Hex(b)[2 * i] == "0123456789abcdef"[b[i] / 16] && Hex(b)[2 * i + 1] == "0123456789abcdef"[b[i] % 16]
  {
    DigitIs(b[0] / 16);
    DigitIs(b[0] % 16);
    if i > 0 {
      HexExactly(b[1..], i - 1);
    }
  }

  lemma DigitIs(d: nat)
    requires d < 16
    ensures Digit(d) == "0123456789abcdef"[d]
  {
  }

  function ManifestPath(depot: nat, manifest: nat): string
  {
    Decimal(depot) + ("_" + (Decimal(manifest) + ".manifest"))
  }

  function ShaPath(depot: nat, manifest: nat): string
  {
    Decimal(depot) + ("_" + (Decimal(manifest) + ".sha"))
  }

  /** Where a separator that neither front contains comes first, the fronts agree and so do the rests. */
  lemma SameFront(a: string, b: string, sep: char, x: string, y: string)
    requires sep !in a && sep !in b && a + ([sep] + x) == b + ([sep] + y)
    ensures a == b && x == y
  {
    var s, t := a + ([sep] + x), b + ([sep] + y);
    assert s[|a|] == sep && t[|b|] == sep;
    assert forall i | 0 <= i < |a| :: s[i] == a[i] && s[i] != sep;
    assert forall i | 0 <= i < |b| :: t[i] == b[i] && t[i] != sep;
    assert s[..|a|] == a && t[..|b|] == b && s[|a| + 1..] == x && t[|b| + 1..] == y;
  }

  lemma SameRests(m: nat, n: nat, x: string, y: string)
    requires Decimal(m) + ("." + x) == Decimal(n) + ("." + y)
    ensures m == n && x == y
  {
    SameFront(Decimal(m), Decimal(n), '.', x, y);
    DecimalInjective(m, n);
  }

  /** No two cache files share a path. */
  lemma PathsDistinct(d: nat, m: nat, d': nat, m': nat)
    ensures ManifestPath(d, m) != ShaPath(d', m')
    ensures ManifestPath(d, m) == ManifestPath(d', m') ==> d == d' && m == m'
    ensures ShaPath(d, m) == ShaPath(d', m') ==> d == d' && m == m'
  {
    assert ".manifest" == "." + "manifest" && ".sha" == "." + "sha" && |"manifest"| != |"sha"|;
    var p, q := Decimal(m) + ".manifest", Decimal(m') + ".sha";
    if ManifestPath(d, m) == ShaPath(d', m') {
      SameFront(Decimal(d), Decimal(d'), '_', p, q);
      SameRests(m, m', "manifest", "sha");
    }
    if ManifestPath(d, m) == ManifestPath(d', m') {
      SameFront(Decimal(d), Decimal(d'), '_', p, Decimal(m') + ".manifest");
      DecimalInjective(d, d');
      SameRests(m, m', "manifest", "manifest");
    }
    if ShaPath(d, m) == ShaPath(d', m') {
      SameFront(Decimal(d), Decimal(d'), '_', Decimal(m) + ".sha", q);
      DecimalInjective(d, d');
      SameRests(m, m', "sha", "sha");
    }
  }

  // ---------------------------------------------------------------- text files

  function Ascii(s: string): (b: Bytes)
    requires forall i | 0 <= i < |s| :: s[i] as int < 128
    ensures |b| == |s|
  {
    seq(|s|, i requires 0 <= i < |s| => s[i] as int)
  }

  /** A text file read back; one that is not ASCII counts as unreadable. */
  function Text(b: Bytes): Option<string>
  {
    if forall i | 0 <= i < |b| :: b[i] < 128
    then Some(seq(|b|, i requires 0 <= i < |b| && b[i] < 128 => b[i] as char))
    else None
  }

  lemma TextOfPrefix(s: string, n: nat)
    requires n <= |s| && forall i | 0 <= i < |s| :: s[i] as int < 128
    ensures Text(Ascii(s)[..n]) == Some(s[..n])
  {
    var b := Ascii(s)[..n];
    assert forall i | 0 <= i < n :: b[i] == s[i] as int;
    assert Text(b).value == s[..n];
  }

  function Trim(s: string): string
  {
    TrimEnd(TrimStart(s))
  }

  lemma TrimNothing(s: string)
    requires forall i | 0 <= i < |s| :: !IsSpace(s[i])
    ensures Trim(s) == s
  {
  }

  // ---------------------------------------------------------------- saving and loading

  /** How far a write of a whole file gets: all of it, a prefix, or not even to opening the file. */
  datatype Write = Whole | Torn(n: nat) | Untouched

  datatype Save = Save(depot: nat, manifest: nat, raw: Bytes, manifestWrite: Write, shaWrite: Write)

  function AfterWrite(files: Files, path: string, b: Bytes, w: Write): Files
  {
    match w
    case Whole => files[path := b]
    case Torn(n) => files[path := if n < |b| then b[..n] else b]
    case Untouched => files
  }

  function ShaText(env: Env, b: Bytes): Bytes
  {
    Ascii(Hex(env.sha(b)))
  }

  function AfterSave(env: Env, files: Files, s: Save): Files
  {
    match env.extract(s.raw)
    case None => files
    case Some(b) =>
      var f := AfterWrite(files, ManifestPath(s.depot, s.manifest), b, s.manifestWrite);
      if s.manifestWrite != Whole then f else AfterWrite(f, ShaPath(s.depot, s.manifest), ShaText(env, b), s.shaWrite)
  }

  function AfterSaves(env: Env, files: Files, saves: seq<Save>): Files
  {
    if saves == [] then files
    else AfterSave(env, AfterSaves(env, files, saves[..|saves| - 1]), saves[|saves| - 1])
  }

  function Lookup(files: Files, path: string): Option<Bytes>
  {
    if path in files then Some(files[path]) else None
  }

  function LoadSpec(env: Env, files: Files, depot: nat, manifest: nat): Option<Manifest>
  {
    match Lookup(files, ManifestPath(depot, manifest))
    case None => None
    case Some(data) =>
      match Lookup(files, ShaPath(depot, manifest))
      case None => None
      case Some(stored) =>
        var text := Text(stored);
        if text.None? || Hex(env.sha(data)) != Trim(text.value) then None
        else
          match ParseSpec(env.decoders, data)
          case Ok(m) => Some(m)
          case Err(_) => None
  }

  /** What a save does to each file: the manifest is written first, and the hash only if that write was whole; a save
      whose archive does not open writes nothing, and no save touches another path. */
  lemma SaveExactly(env: Env, files: Files, s: Save)
    ensures var path := Decimal(s.depot) + "_" + Decimal(s.manifest) + ".manifest";
            var shaPath := Decimal(s.depot) + "_" + Decimal(s.manifest) + ".sha";
            var b := env.extract(s.raw);
            if b.None? then AfterSave(env, files, s) == files
            else
              var after := AfterSave(env, files, s);
              && WrittenTo(files, after, path, b.value, s.manifestWrite)
              && WrittenTo(files, after, shaPath, Ascii(Hex(env.sha(b.value))),
                   if s.manifestWrite == Whole then s.shaWrite else Untouched)
              && forall other | other != path && other != shaPath :: Lookup(after, other) == Lookup(files, other)
  {
    var path := Decimal(s.depot) + "_" + Decimal(s.manifest) + ".manifest";
    var shaPath := Decimal(s.depot) + "_" + Decimal(s.manifest) + ".sha";
    assert path == ManifestPath(s.depot, s.manifest) && shaPath == ShaPath(s.depot, s.manifest);
    PathsDistinct(s.depot, s.manifest, s.depot, s.manifest);
  }

  /** The path holds what a write that got so far has put there. */
  predicate WrittenTo(files: Files, after: Files, path: string, b: Bytes, w: Write)
  {
    match w
    case Whole => path in after && after[path] == b
    case Torn(n) => path in after && after[path] == if n < |b| then b[..n] else b
    case Untouched => Lookup(after, path) == Lookup(files, path)
  }

  /** A load gives `m` exactly if both files of the entry are there, under their names, the second holds the hash of the
      first in hexadecimal, with any white space around it, and the first parses to `m`. */
  lemma LoadExactly(env: Env, files: Files, depot: nat, manifest: nat, m: Manifest)
    ensures LoadSpec(env, files, depot, manifest) == Some(m) <==>
            var path := Decimal(depot) + "_" + Decimal(manifest) + ".manifest";
            var shaPath := Decimal(depot) + "_" + Decimal(manifest) + ".sha";
            && path in files && shaPath in files && ParseSpec(env.decoders, files[path]) == Ok(m)
            && HexBetweenSpaces(Hex(env.sha(files[path])), files[shaPath])
  {
    var path := Decimal(depot) + "_" + Decimal(manifest) + ".manifest";
    var shaPath := Decimal(depot) + "_" + Decimal(manifest) + ".sha";
    assert path == ManifestPath(depot, manifest) && shaPath == ShaPath(depot, manifest);
    if path in files && shaPath in files {
      TrimmedIs(Hex(env.sha(files[path])), files[shaPath]);
    }
  }

  /** The text, in ASCII, with white space before and after it. */
  ghost predicate HexBetweenSpaces(hex: string, b: Bytes)
  {
    exists n: nat :: HexAt(hex, b, n)
  }

  predicate HexAt(hex: string, b: Bytes, n: nat)
  {
    && n + |hex| <= |b|
    && (forall i | 0 <= i < |b| && !(n <= i < n + |hex|) :: b[i] in {0x9, 0xA, 0xB, 0xC, 0xD, 0x20})
    && (forall i | 0 <= i < |hex| :: b[n + i] == hex[i] as int)
  }

  lemma TrimmedIs(hex: string, b: Bytes)
    requires hex != "" && forall i | 0 <= i < |hex| :: !IsSpace(hex[i]) && hex[i] as int < 128
    ensures Text(b).Some? && Trim(Text(b).value) == hex <==> HexBetweenSpaces(hex, b)
  {
    if Text(b).Some? && Trim(Text(b).value) == hex {
      var n := SpacesTrimmed(Text(b).value, hex);
      Placed(hex, b, n);
    }
    if n: nat :| HexAt(hex, b, n) {
      Found(hex, b, n);
      SpacesAround(Text(b).value, hex, n);
    }
  }

  lemma AsciiSpace(c: char)
    requires c as int < 128
    ensures IsSpace(c) <==> c as int in {0x9, 0xA, 0xB, 0xC, 0xD, 0x20}
  {
  }

  ghost predicate Between(t: string, hex: string, n: nat)
  {
    && n + |hex| <= |t| && t[n..n + |hex|] == hex
    && forall i | 0 <= i < |t| && !(n <= i < n + |hex|) :: IsSpace(t[i])
  }

  lemma Placed(hex: string, b: Bytes, n: nat)
    requires Text(b).Some? && Between(Text(b).value, hex, n)
    ensures HexAt(hex, b, n)
  {
    var t := Text(b).value;
    forall i | 0 <= i < |b| && !(n <= i < n + |hex|)
      ensures b[i] in {0x9, 0xA, 0xB, 0xC, 0xD, 0x20}
    {
      AsciiSpace(t[i]);
    }
    forall i | 0 <= i < |hex|
      ensures b[n + i] == hex[i] as int
    {
      assert t[n..n + |hex|][i] == t[n + i];
    }
  }

  lemma Found(hex: string, b: Bytes, n: nat)
    requires HexAt(hex, b, n) && forall i | 0 <= i < |hex| :: hex[i] as int < 128
    ensures Text(b).Some? && Between(Text(b).value, hex, n)
  {
    assert forall i | n <= i < n + |hex| :: b[i] == hex[i - n] as int;
    var t := Text(b).value;
    forall i | 0 <= i < |t| && !(n <= i < n + |hex|)
      ensures IsSpace(t[i])
    {
      AsciiSpace(t[i]);
    }
  }

  lemma SpacesTrimmed(t: string, hex: string) returns (n: nat)
    requires Trim(t) == hex
    ensures Between(t, hex, n)
  {
    n := TrimStartCut(t);
    var m := TrimEndCut(t[n..]);
    assert forall i | n <= i < |t| :: t[i] == t[n..][i - n];
  }

  lemma SpacesAround(t: string, hex: string, n: nat)
    requires hex != "" && Between(t, hex, n) && forall i | 0 <= i < |hex| :: !IsSpace(hex[i])
    ensures Trim(t) == hex
  {
    var k := |hex|;
    assert t[n] == t[n..n + k][0] && t[n..][k - 1] == t[n..n + k][k - 1];
    TrimStartAt(t, n);
    TrimEndAt(t[n..], k);
  }

  class Cache {
    var files: Files

    constructor ()
      ensures files == map[]
    {
      files := map[];
    }

    method WriteFile(path: string, b: Bytes, w: Write) returns (ok: bool)
      modifies this
      ensures files == AfterWrite(old(files), path, b, w) && ok == w.Whole?
    {
      match w {
        case Whole => files := files[path := b];
        case Torn(n) => files := files[path := if n < |b| then b[..n] else b];
        case Untouched =>
      }
      ok := w.Whole?;
    }

    method SaveManifest(env: Env, s: Save) returns (ok: bool)
      modifies this
      ensures files == AfterSave(env, old(files), s)
      ensures ok <==> env.extract(s.raw).Some? && s.manifestWrite.Whole? && s.shaWrite.Whole?
    {
      var b := env.extract(s.raw);
      if b.None? {
        return false;
      }
      ok := WriteFile(ManifestPath(s.depot, s.manifest), b.value, s.manifestWrite);
      if ok {
        ok := WriteFile(ShaPath(s.depot, s.manifest), ShaText(env, b.value), s.shaWrite);
      }
    }

    method Load(env: Env, depot: nat, manifest: nat) returns (m: Option<Manifest>)
      ensures m == LoadSpec(env, files, depot, manifest)
    {
      var path, shaPath := ManifestPath(depot, manifest), ShaPath(depot, manifest);
      if path !in files {
        return None;
      }
      var data := files[path];
      if shaPath !in files {
        return None;
      }
      var text := Text(files[shaPath]);
      if text.None? {
        return None;
      }
      var stored := Trim(text.value);
      if Hex(env.sha(data)) != stored {
        return None;
      }
      var parsed := Parse(env.decoders, data);
      m := if parsed.Ok? then Some(parsed.value) else None;
    }
  }

  // ---------------------------------------------------------------- agreement under torn writes

  /** Some save of this entry extracted these bytes. */
  ghost predicate Saved(env: Env, saves: seq<Save>, depot: nat, manifest: nat, b: Bytes)
  {
    exists i :: 0 <= i < |saves| && SaveOf(env, saves[i], depot, manifest, b)
  }

  predicate SaveOf(env: Env, s: Save, depot: nat, manifest: nat, b: Bytes)
  {
    s.depot == depot && s.manifest == manifest && env.extract(s.raw) == Some(b)
  }

  predicate IsPrefix(p: Bytes, b: Bytes)
  {
    |p| <= |b| && b[..|p|] == p
  }

  /** What is found of an entry is a prefix of what saves of that same entry wrote. */
  ghost predicate FoundIsWritten(env: Env, saves: seq<Save>, files: Files, depot: nat, manifest: nat)
  {
    && (ManifestPath(depot, manifest) in files ==>
          exists b :: Saved(env, saves, depot, manifest, b) && IsPrefix(files[ManifestPath(depot, manifest)], b))
    && (ShaPath(depot, manifest) in files ==>
          exists b :: Saved(env, saves, depot, manifest, b) &&
              IsPrefix(files[ShaPath(depot, manifest)], ShaText(env, b)))
  }

  lemma AfterWriteAt(files: Files, path: string, b: Bytes, w: Write, other: string)
    ensures var f := AfterWrite(files, path, b, w);
            if other == path && w != Untouched then other in f &&
                IsPrefix(f[other], b) else Lookup(f, other) == Lookup(files, other)
  {
  }

  lemma {:induction false} FoundAfterSaves(env: Env, saves: seq<Save>, depot: nat, manifest: nat)
    ensures FoundIsWritten(env, saves, AfterSaves(env, map[], saves), depot, manifest)
  {
    if saves != [] {
      var before, s := saves[..|saves| - 1], saves[|saves| - 1];
      FoundAfterSaves(env, before, depot, manifest);
      SavedMore(env, before, s, depot, manifest);
      assert saves == before + [s];
      FoundAfterSave(env, before, s, AfterSaves(env, map[], before), depot, manifest);
    }
  }

  lemma SavedMore(env: Env, saves: seq<Save>, s: Save, depot: nat, manifest: nat)
    ensures forall b | Saved(env, saves, depot, manifest, b) :: Saved(env, saves + [s], depot, manifest, b)
    ensures forall b | SaveOf(env, s, depot, manifest, b) :: Saved(env, saves + [s], depot, manifest, b)
  {
    forall b | Saved(env, saves, depot, manifest, b) ensures Saved(env, saves + [s], depot, manifest, b) {
      var i :| 0 <= i < |saves| && SaveOf(env, saves[i], depot, manifest, b);
      assert (saves + [s])[i] == saves[i];
    }
    assert (saves + [s])[|saves|] == s;
  }

  lemma FoundAfterSave(env: Env, before: seq<Save>, s: Save, files: Files, depot: nat, manifest: nat)
    requires FoundIsWritten(env, before, files, depot, manifest)
    ensures FoundIsWritten(env, before + [s], AfterSave(env, files, s), depot, manifest)
  {
    SavedMore(env, before, s, depot, manifest);
    if env.extract(s.raw).Some? {
      var b := env.extract(s.raw).value;
      var path, shaPath := ManifestPath(s.depot, s.manifest), ShaPath(s.depot, s.manifest);
      var mine, mySha := ManifestPath(depot, manifest), ShaPath(depot, manifest);
      PathsDistinct(depot, manifest, s.depot, s.manifest);
      PathsDistinct(s.depot, s.manifest, depot, manifest);
      var f := AfterWrite(files, path, b, s.manifestWrite);
      AfterWriteAt(files, path, b, s.manifestWrite, mine);
      AfterWriteAt(files, path, b, s.manifestWrite, mySha);
      AfterWriteAt(f, shaPath, ShaText(env, b), s.shaWrite, mine);
      AfterWriteAt(f, shaPath, ShaText(env, b), s.shaWrite, mySha);
    }
  }

  /** After any saves, each cut off anywhere, a load finds nothing or parses bytes with the hash of bytes that a save
      of the same entry extracted: those very bytes, unless the hash collides on a prefix of something saved. */
  lemma LoadIsSaved(env: Env, saves: seq<Save>, depot: nat, manifest: nat)
    ensures var m := LoadSpec(env, AfterSaves(env, map[], saves), depot, manifest);
            m.Some? ==> exists data, b, whole ::
                Vouched(env, saves, depot, manifest, data, b, whole) && ParseSpec(env.decoders, data) == Ok(m.value)
  {
    var files := AfterSaves(env, map[], saves);
    var m := LoadSpec(env, files, depot, manifest);
    if m.Some? {
      FoundAfterSaves(env, saves, depot, manifest);
      var data, stored := files[ManifestPath(depot, manifest)], files[ShaPath(depot, manifest)];
      var whole :| Saved(env, saves, depot, manifest, whole) && IsPrefix(data, whole);
      var b :| Saved(env, saves, depot, manifest, b) && IsPrefix(stored, ShaText(env, b));
      var hex := Hex(env.sha(b));
      TextOfPrefix(hex, |stored|);
      TrimNothing(hex[..|stored|]);
      assert Hex(env.sha(data)) == hex[..|stored|];
      assert |stored| == 40 && hex[..40] == hex;
      HexInjective(env.sha(data), env.sha(b));
      assert Vouched(env, saves, depot, manifest, data, b, whole);
    }
  }

  ghost predicate Vouched(env: Env, saves: seq<Save>, depot: nat, manifest: nat, data: Bytes, b: Bytes, whole: Bytes)
  {
    && Saved(env, saves, depot, manifest, b) && Saved(env, saves, depot, manifest, whole)
    && IsPrefix(data, whole) && env.sha(data) == env.sha(b)
  }

  /** No prefix of bytes saved for the entry has the hash of other bytes saved for it. */
  ghost predicate NoCollision(env: Env, saves: seq<Save>, depot: nat, manifest: nat)
  {
    forall data, b, whole | Vouched(env, saves, depot, manifest, data, b, whole) :: data == b
  }

  lemma LoadIsSomeSave(env: Env, saves: seq<Save>, depot: nat, manifest: nat)
    requires NoCollision(env, saves, depot, manifest)
    ensures var m := LoadSpec(env, AfterSaves(env, map[], saves), depot, manifest);
            m.Some? ==> exists b :: Saved(env, saves, depot, manifest, b) && ParseSpec(env.decoders, b) == Ok(m.value)
  {
    LoadIsSaved(env, saves, depot, manifest);
  }

  /** A whole save is loaded back, whatever the disk held before and whatever other entries are saved afterwards. */
  lemma {:induction false} SaveThenLoad(env: Env, files: Files, s: Save, later: seq<Save>)
    requires s.manifestWrite.Whole? && s.shaWrite.Whole? && env.extract(s.raw).Some?
    requires forall t | t in later :: t.depot != s.depot || t.manifest != s.manifest
    ensures var r := ParseSpec(env.decoders, env.extract(s.raw).value);
            LoadSpec(env, AfterSaves(env, AfterSave(env, files, s), later), s.depot, s.manifest) ==
            if r.Ok? then Some(r.value) else None
    ensures var f := AfterSaves(env, AfterSave(env, files, s), later);
            && Lookup(f, ManifestPath(s.depot, s.manifest)) == env.extract(s.raw)
            && Lookup(f, ShaPath(s.depot, s.manifest)) == Some(ShaText(env, env.extract(s.raw).value))
    decreases |later|
  {
    var b := env.extract(s.raw).value;
    var mine, mySha := ManifestPath(s.depot, s.manifest), ShaPath(s.depot, s.manifest);
    PathsDistinct(s.depot, s.manifest, s.depot, s.manifest);
    if later != [] {
      var before, t := later[..|later| - 1], later[|later| - 1];
      SaveThenLoad(env, files, s, before);
      OtherEntry(env, AfterSaves(env, AfterSave(env, files, s), before), t, s.depot, s.manifest);
    }
    var hex := Hex(env.sha(b));
    TextOfPrefix(hex, |hex|);
    assert hex[..|hex|] == hex && ShaText(env, b)[..|hex|] == ShaText(env, b);
    TrimNothing(hex);
  }

  /** A save, torn or not, leaves every other entry's files alone. */
  lemma OtherEntry(env: Env, files: Files, s: Save, depot: nat, manifest: nat)
    requires s.depot != depot || s.manifest != manifest
    ensures Lookup(AfterSave(env, files, s), ManifestPath(depot, manifest)) ==
              Lookup(files, ManifestPath(depot, manifest))
    ensures Lookup(AfterSave(env, files, s), ShaPath(depot, manifest)) == Lookup(files, ShaPath(depot, manifest))
  {
    PathsDistinct(depot, manifest, s.depot, s.manifest);
    PathsDistinct(s.depot, s.manifest, depot, manifest);
  }

  // ---------------------------------------------------------------- installed manifests

  type Installed = map<nat, nat>

  datatype Json = Json(render: Installed -> Bytes, parse: Bytes -> Option<Installed>)

  /** Printing is inverted, and no proper prefix of a printed object is an object. */
  ghost predicate Strict(j: Json)
  {
    forall m, n: nat | n <= |j.render(m)| :: j.parse(j.render(m)[..n]) == if n == |j.render(m)| then Some(m) else None
  }

  /** Unreadable text counts as an empty record. */
  function LoadConfig(j: Json, file: Option<Bytes>): Installed
  {
    if file.None? || j.parse(file.value).None? then map[] else j.parse(file.value).value
  }

  class DepotConfig {
    var installed: Installed

    constructor (j: Json, file: Option<Bytes>)
      ensures installed == LoadConfig(j, file)
    {
      installed := LoadConfig(j, file);
    }

    method GetInstalled(depot: nat) returns (m: Option<nat>)
      ensures m == if depot in installed then Some(installed[depot]) else None
    {
      m := if depot in installed then Some(installed[depot]) else None;
    }

    method SetInstalled(depot: nat, manifest: nat)
      modifies this
      ensures installed == old(installed)[depot := manifest]
    {
      installed := installed[depot := manifest];
    }
  }

  /** After a save cut off anywhere, the next load has the new record, the old one, or nothing: nothing exactly when
      the write got as far as opening the file and no further than short of its end, and then every depot is forgotten,
      not only the one being recorded. */
  lemma ConfigAfterSave(j: Json, was: Option<Bytes>, record: Installed, w: Write)
    requires Strict(j)
    ensures var files := if was.None? then map[] else map["depot.json" := was.value];
            LoadConfig(j, Lookup(AfterWrite(files, "depot.json", j.render(record), w), "depot.json")) ==
            match w
            case Whole => record
            case Torn(n) => if n >= |j.render(record)| then record else map[]
            case Untouched => LoadConfig(j, was)
  {
    var b := j.render(record);
    assert b[..|b|] == b;
  }

  // ---------------------------------------------------------------- the record over many runs

  /** One recording: a depot, the manifest it now has, and how far the write got. */
  datatype Recording = Recording(depot: nat, manifest: nat, write: Write)

  /** `depot.json` after one recording: load, set, save. */
  function AfterRecording(j: Json, file: Option<Bytes>, r: Recording): Option<Bytes>
  {
    var b := j.render(LoadConfig(j, file)[r.depot := r.manifest]);
    match r.write
    case Whole => Some(b)
    case Torn(n) => Some(if n < |b| then b[..n] else b)
    case Untouched => file
  }

  function AfterRecordings(j: Json, rs: seq<Recording>): Option<Bytes>
  {
    if rs == [] then None else AfterRecording(j, AfterRecordings(j, rs[..|rs| - 1]), rs[|rs| - 1])
  }

  method RecordInstalled(j: Json, file: Option<Bytes>, r: Recording) returns (after: Option<Bytes>)
    ensures after == AfterRecording(j, file, r)
  {
    var config := new DepotConfig(j, file);
    config.SetInstalled(r.depot, r.manifest);
    var b := j.render(config.installed);
    match r.write {
      case Whole => after := Some(b);
      case Torn(n) => after := Some(if n < |b| then b[..n] else b);
      case Untouched => after := file;
    }
  }

  /** The last recording in `rs` reached the disk whole. */
  predicate Completes(j: Json, rs: seq<Recording>)
    requires rs != []
  {
    var r := rs[|rs| - 1];
    var b := j.render(LoadConfig(j, AfterRecordings(j, rs[..|rs| - 1]))[r.depot := r.manifest]);
    r.write.Whole? || (r.write.Torn? && r.write.n >= |b|)
  }

  /** The last recording in `rs` destroyed the file. */
  predicate Destroys(j: Json, rs: seq<Recording>)
    requires rs != []
  {
    rs[|rs| - 1].write.Torn? && !Completes(j, rs)
  }

  /** Recording `k` takes away what the depot had on record before it. */
  predicate Overrides(j: Json, rs: seq<Recording>, depot: nat, k: nat)
    requires k < |rs|
  {
    Destroys(j, rs[..k + 1]) || (rs[k].depot == depot && Completes(j, rs[..k + 1]))
  }

  /** Recording `i` is the one that counts for the depot: it completed, and nothing after it destroyed the file or
      completed for the same depot. */
  ghost predicate Counts(j: Json, rs: seq<Recording>, depot: nat, i: nat)
    requires i < |rs|
  {
    && rs[i].depot == depot && Completes(j, rs[..i + 1])
    && forall k: nat | i < k < |rs| :: !Overrides(j, rs, depot, k)
  }

  lemma LastRecording(j: Json, rs: seq<Recording>)
    requires Strict(j) && rs != []
    ensures var was, now := LoadConfig(j, AfterRecordings(j, rs[..|rs| - 1])), LoadConfig(j, AfterRecordings(j, rs));
            var r := rs[|rs| - 1];
            now == if Completes(j, rs) then was[r.depot := r.manifest] else if Destroys(j, rs) then map[] else was
  {
    var r := rs[|rs| - 1];
    var b := j.render(LoadConfig(j, AfterRecordings(j, rs[..|rs| - 1]))[r.depot := r.manifest]);
    assert b[..|b|] == b;
  }

  lemma CountsEarlier(j: Json, rs: seq<Recording>, depot: nat, i: nat)
    requires i < |rs| - 1
    ensures Counts(j, rs, depot, i) <==>
            Counts(j, rs[..|rs| - 1], depot, i) && !Overrides(j, rs, depot, |rs| - 1)
  {
    var n := |rs| - 1;
    assert rs[..n][..i + 1] == rs[..i + 1];
    forall k: nat | k < n
      ensures Overrides(j, rs[..n], depot, k) <==> Overrides(j, rs, depot, k)
    {
      assert rs[..n][..k + 1] == rs[..k + 1];
    }
  }

  lemma CountsLast(j: Json, rs: seq<Recording>, depot: nat)
    requires rs != []
    ensures Counts(j, rs, depot, |rs| - 1) <==> rs[|rs| - 1].depot == depot && Completes(j, rs)
  {
    assert rs[..|rs|] == rs;
  }

  /** After any recordings, each cut off anywhere, a depot has the manifest `m` on record if and only if the recording
      that counts for it named `m`. With none that counts it has nothing, also when it was another depot's recording
      that was torn. */
  lemma {:induction false} InstalledIsWhatCounts(j: Json, rs: seq<Recording>, depot: nat, m: nat)
    requires Strict(j)
    ensures var now := LoadConfig(j, AfterRecordings(j, rs));
            depot in now && now[depot] == m <==>
                exists i: nat | i < |rs| :: Counts(j, rs, depot, i) && rs[i].manifest == m
  {
    if rs != [] {
      var n := |rs| - 1;
      InstalledIsWhatCounts(j, rs[..n], depot, m);
      LastRecording(j, rs);
      WhatCountsNow(j, rs, depot, m);
    }
  }

  /** What `run_download` reads before a download: after any recordings, the manifest named by the one that counts. */
  method InstalledManifest(j: Json, file: Option<Bytes>, ghost rs: seq<Recording>, depot: nat) returns (m: Option<nat>)
    requires Strict(j) && file == AfterRecordings(j, rs)
    ensures forall v: nat :: m == Some(v) <==>
              exists i: nat | i < |rs| :: Counts(j, rs, depot, i) && rs[i].manifest == v
  {
    var config := new DepotConfig(j, file);
    m := config.GetInstalled(depot);
    forall v: nat
      ensures m == Some(v) <==> exists i: nat | i < |rs| :: Counts(j, rs, depot, i) && rs[i].manifest == v
    {
      InstalledIsWhatCounts(j, rs, depot, v);
    }
  }

  /** The recording that counts after one more. */
  lemma WhatCountsNow(j: Json, rs: seq<Recording>, depot: nat, m: nat)
    requires rs != []
    ensures var n := |rs| - 1;
            (exists i: nat | i < |rs| :: Counts(j, rs, depot, i) && rs[i].manifest == m) <==>
            if rs[n].depot == depot && Completes(j, rs) then rs[n].manifest == m
            else !Destroys(j, rs) && exists i: nat | i < n :: Counts(j, rs[..n], depot, i) && rs[..n][i].manifest == m
  {
    var n := |rs| - 1;
    CountsLast(j, rs, depot);
    assert rs[..n + 1] == rs;
    forall i: nat | i < n
      ensures Counts(j, rs, depot, i) <==>
              Counts(j, rs[..n], depot, i) && !Overrides(j, rs, depot, n)
      ensures rs[..n][i] == rs[i]
    {
      CountsEarlier(j, rs, depot, i);
    }
  }
}
