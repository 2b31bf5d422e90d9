/** Decrypting a manifest's file names in place and sorting by them (crates/steam/src/depot/manifest.rs:63-96). */
module Filenames {
  import opened Base
  import opened Chunks

  // ---------------------------------------------------------------- the order of names

  /** Lexicographic by scalar value, which is the byte order of UTF-8. */
  predicate Leq(a: string, b: string)
  {
    a == "" || (b != "" && (a[0] < b[0] || (a[0] == b[0] && Leq(a[1..], b[1..]))))
  }

  lemma {:induction false} LeqOrder(a: string, b: string, c: string)
    ensures Leq(a, a) && (Leq(a, b) || Leq(b, a))
    ensures Leq(a, b) && Leq(b, a) ==> a == b
    ensures Leq(a, b) && Leq(b, c) ==> Leq(a, c)
  {
    if a != "" {
      LeqOrder(a[1..], if b == "" then "" else b[1..], if c == "" then "" else c[1..]);
      if b != "" && a[0] == b[0] {
        assert a == [a[0]] + a[1..] && b == [b[0]] + b[1..];
      }
    }
  }

  lemma SameHead(a: string, b: string, i: nat)
    requires a != "" && b != "" && i <= |a| && i <= |b| && a[..i] == b[..i]
    ensures i > 0 ==> a[0] == b[0]
  {
    if i > 0 {
      assert a[..i][0] == a[0] && b[..i][0] == b[0];
    }
  }

  /** A prefix comes first; else the first difference decides. */
  lemma {:induction false} LeqExactly(a: string, b: string)
    ensures Leq(a, b) <==>
            || a <= b
            || exists i :: 0 <= i < |a| && i < |b| && a[..i] == b[..i] && a[i] < b[i]
  {
    if a != "" && b != "" && a[0] == b[0] {
      LeqExactly(a[1..], b[1..]);
      assert a[1..] <= b[1..] <==> a <= b;
      if i :| 0 <= i < |a| && i < |b| && a[..i] == b[..i] && a[i] < b[i] {
        assert i > 0 by {
          assert a[0] == b[0];
        }
        assert a[1..][..i - 1] == a[..i][1..] && b[1..][..i - 1] == b[..i][1..];
        assert a[1..][i - 1] < b[1..][i - 1];
      }
      if i :| 0 <= i < |a[1..]| && i < |b[1..]| && a[1..][..i] == b[1..][..i] && a[1..][i] < b[1..][i] {
        assert a[..i + 1] == [a[0]] + a[1..][..i] && b[..i + 1] == [b[0]] + b[1..][..i];
        assert a[i + 1] < b[i + 1];
      }
    } else if a != "" && b != "" {
      assert a[..0] == b[..0];
      forall i | 0 <= i < |a| && i < |b| && a[..i] == b[..i]
        ensures i == 0
      {
        SameHead(a, b, i);
      }
    }
  }

  /** A missing name sorts as the empty one. */
  function Key(f: File): string
  {
    if f.name.Some? then f.name.value else ""
  }

  ghost predicate Sorted(s: seq<File>)
  {
    forall i, j | 0 <= i < j < |s| :: Leq(Key(s[i]), Key(s[j]))
  }

  /** The entries of one name, in order. */
  function Named(s: seq<File>, n: string): seq<File>
  {
    if s == [] then []
    else if Key(s[0]) == n then [s[0]] + Named(s[1..], n)
    else Named(s[1..], n)
  }

  /** In name order, with the entries of each name still in the order they had. */
  ghost predicate StablySorted(was: seq<File>, now: seq<File>)
  {
    Sorted(now) && forall n :: Named(now, n) == Named(was, n)
  }

  function Insert(f: File, s: seq<File>): seq<File>
  {
    if s == [] || Leq(Key(f), Key(s[0])) then [f] + s else [s[0]] + Insert(f, s[1..])
  }

  /** What a stable sort by name returns. */
  function Sort(s: seq<File>): seq<File>
  {
    if s == [] then [] else Insert(s[0], Sort(s[1..]))
  }

  lemma {:induction false} InsertKeeps(f: File, s: seq<File>)
    requires Sorted(s)
    ensures Sorted(Insert(f, s)) && Insert(f, s) != []
    ensures Key(Insert(f, s)[0]) == Key(f) || (s != [] && Key(Insert(f, s)[0]) == Key(s[0]))
  {
    if s == [] {
    } else if Leq(Key(f), Key(s[0])) {
      forall j | 0 <= j < |s| ensures Leq(Key(f), Key(s[j])) {
        LeqOrder(Key(f), Key(s[0]), Key(s[j]));
        LeqOrder(Key(s[0]), Key(s[0]), Key(s[0]));
      }
    } else {
      LeqOrder(Key(s[0]), Key(f), Key(f));
      InsertKeeps(f, s[1..]);
      var more := Insert(f, s[1..]);
      forall j | 0 <= j < |more| ensures Leq(Key(s[0]), Key(more[j])) {
        LeqOrder(Key(s[0]), Key(more[0]), Key(more[j]));
        LeqOrder(Key(more[0]), Key(more[0]), Key(more[0]));
      }
    }
  }

  lemma {:induction false} InsertNamed(f: File, s: seq<File>, n: string)
    ensures Named(Insert(f, s), n) == if Key(f) == n then [f] + Named(s, n) else Named(s, n)
  {
    if s == [] || Leq(Key(f), Key(s[0])) {
      assert ([f] + s)[1..] == s;
    } else {
      LeqOrder(Key(f), Key(s[0]), "");
      InsertNamed(f, s[1..], n);
      assert ([s[0]] + Insert(f, s[1..]))[1..] == Insert(f, s[1..]);
    }
  }

  lemma {:induction false} SortIsStable(s: seq<File>)
    ensures StablySorted(s, Sort(s))
  {
    if s != [] {
      SortIsStable(s[1..]);
      InsertKeeps(s[0], Sort(s[1..]));
      forall n ensures Named(Sort(s), n) == Named(s, n) {
        InsertNamed(s[0], Sort(s[1..]), n);
      }
    }
  }

  lemma {:induction false} NamedIn(s: seq<File>, n: string)
    ensures Named(s, n) != [] <==> exists i :: 0 <= i < |s| && Key(s[i]) == n
  {
    if s != [] {
      NamedIn(s[1..], n);
      if i :| 0 <= i < |s| && Key(s[i]) == n {
        assert i == 0 || s[1..][i - 1] == s[i];
      }
    }
  }

  lemma FirstIsLeast(s: seq<File>, n: string)
    requires Sorted(s) && Named(s, n) != []
    ensures s != [] && Leq(Key(s[0]), n)
  {
    NamedIn(s, n);
    LeqOrder(n, n, n);
  }

  /** There is only one stable sort: whichever algorithm the standard library uses, it returns this. */
  lemma {:induction false} StableSortUnique(was: seq<File>, a: seq<File>, b: seq<File>)
    requires StablySorted(was, a) && StablySorted(was, b)
    ensures a == b
    decreases |a|
  {
    if a == [] {
      var n := if b == [] then "" else Key(b[0]);
      assert Named(a, n) == Named(was, n) == Named(b, n);
    } else {
      var n := Key(a[0]);
      assert Named(a, n) == Named(was, n) == Named(b, n);
      FirstIsLeast(b, n);
      var m := Key(b[0]);
      assert Named(a, m) == Named(was, m) == Named(b, m);
      FirstIsLeast(a, m);
      LeqOrder(n, m, n);
      assert Named(a, n)[0] == a[0] && Named(b, n)[0] == b[0];
      forall k ensures Named(b[1..], k) == Named(a[1..], k) {
        assert Named(a, k) == Named(was, k) == Named(b, k);
        assert k == n ==> Named(a[1..], k) == Named(a, k)[1..] && Named(b[1..], k) == Named(b, k)[1..];
      }
      StableSortUnique(a[1..], a[1..], b[1..]);
      assert a == [a[0]] + a[1..] && b == [b[0]] + b[1..];
    }
  }

  lemma {:induction false} NamedCount(s: seq<File>, f: File)
    ensures multiset(Named(s, Key(f)))[f] == multiset(s)[f]
  {
    if s != [] {
      NamedCount(s[1..], f);
      assert s == [s[0]] + s[1..];
      if Key(s[0]) == Key(f) {
        assert multiset([s[0]] + Named(s[1..], Key(f)))[f] == multiset([s[0]])[f] + multiset(Named(s[1..], Key(f)))[f];
      }
    }
  }

  /** It loses, adds and duplicates nothing. */
  lemma StableSortPermutes(was: seq<File>, now: seq<File>)
    requires StablySorted(was, now)
    ensures multiset(now) == multiset(was)
  {
    forall f ensures multiset(now)[f] == multiset(was)[f] {
      NamedCount(was, f);
      NamedCount(now, f);
      assert Named(now, Key(f)) == Named(was, Key(f));
    }
  }

  // ---------------------------------------------------------------- decryption

  /** What decrypting one name gives, if it can be decrypted. */
  type Decryption = string -> Option<string>

  predicate Decryptable(d: Decryption, f: File)
  {
    f.name.Some? ==> d(f.name.value).Some?
  }

  function Renamed(d: Decryption, f: File): (r: File)
    requires Decryptable(d, f)
    ensures r == f.(name := r.name) && (r.name.Some? <==> f.name.Some?)
  {
    if f.name.Some? then f.(name := d(f.name.value)) else f
  }

  function AllRenamed(d: Decryption, s: seq<File>): (r: seq<File>)
    requires forall i | 0 <= i < |s| :: Decryptable(d, s[i])
    ensures |r| == |s| && forall i | 0 <= i < |s| :: r[i] == Renamed(d, s[i])
  {
    seq(|s|, i requires 0 <= i < |s| => Renamed(d, s[i]))
  }

  /** The number of entries before the first one that cannot be decrypted. */
  function Reached(d: Decryption, s: seq<File>): (k: nat)
    ensures k <= |s| && (forall i | 0 <= i < k :: Decryptable(d, s[i])) && (k < |s| ==> !Decryptable(d, s[k]))
  {
    if s == [] || !Decryptable(d, s[0]) then 0
    else
      var k := Reached(d, s[1..]);
      assert forall i | 1 <= i < |s| :: s[i] == s[1..][i - 1];
      1 + k
  }

  lemma ReachedIs(d: Decryption, s: seq<File>, k: nat)
    requires k <= |s| && (forall i | 0 <= i < k :: Decryptable(d, s[i])) && (k < |s| ==> !Decryptable(d, s[k]))
    ensures Reached(d, s) == k
  {
  }

  /** The entries before `k` renamed, the others as they were. */
  function RenamedUpTo(d: Decryption, s: seq<File>, k: nat): (r: seq<File>)
    requires k <= |s| && forall i | 0 <= i < k :: Decryptable(d, s[i])
    ensures |r| == |s|
  {
    AllRenamed(d, s[..k]) + s[k..]
  }

  class Listing {
    var files: seq<File>
    var encrypted: bool

    constructor (f: seq<File>, e: bool)
      ensures files == f && encrypted == e
    {
      files, encrypted := f, e;
    }

    method DecryptFilenames(d: Decryption) returns (ok: bool)
      modifies this
      ensures !old(encrypted) ==> ok && files == old(files) && !encrypted
      ensures old(encrypted) ==> ok == (Reached(d, old(files)) == |old(files)|) && encrypted == !ok
      ensures old(encrypted) && ok ==> StablySorted(AllRenamed(d, old(files)), files)
      ensures !ok ==> files == RenamedUpTo(d, old(files), Reached(d, old(files)))
    {
      if !encrypted {
        return true;
      }
      ghost var was := files;
      var i := 0;
      while i < |files|
        invariant i <= |files| == |was| && encrypted
        invariant forall j | 0 <= j < i :: Decryptable(d, was[j]) && files[j] == Renamed(d, was[j])
        invariant forall j | i <= j < |files| :: files[j] == was[j]
      {
        if files[i].name.Some? {
          var name := d(files[i].name.value);
          if name.None? {
            ReachedIs(d, was, i);
            assert files == RenamedUpTo(d, was, i);
            return false;
          }
          files := files[i := files[i].(name := name)];
        }
        i := i + 1;
      }
      ReachedIs(d, was, |was|);
      assert files == AllRenamed(d, was);
      SortIsStable(files);
      files := Sort(files);
      encrypted := false;
      ok := true;
    }
  }

  /** The order the source compares by, a missing name counting as the empty one. */
  ghost predicate InOrder(x: Option<string>, y: Option<string>)
  {
    var a, b := if x.Some? then x.value else "", if y.Some? then y.value else "";
    || a <= b
    || exists i :: 0 <= i < |a| && i < |b| && a[..i] == b[..i] && a[i] < b[i]
  }

  /** On success the entries are those there were, in name order, stably, with nothing but their names changed. */
  lemma SortedRenaming(d: Decryption, was: seq<File>, now: seq<File>)
    requires Reached(d, was) == |was| && StablySorted(AllRenamed(d, was), now)
    ensures multiset(now) == multiset(AllRenamed(d, was)) && now == Sort(AllRenamed(d, was))
    ensures forall i | 0 <= i < |was| ::
              AllRenamed(d, was)[i] == was[i].(name := if was[i].name.Some? then d(was[i].name.value) else None)
    ensures forall i, j | 0 <= i < j < |now| :: InOrder(now[i].name, now[j].name)
  {
    StableSortPermutes(AllRenamed(d, was), now);
    SortIsStable(AllRenamed(d, was));
    StableSortUnique(AllRenamed(d, was), now, Sort(AllRenamed(d, was)));
    forall i, j | 0 <= i < j < |now|
      ensures InOrder(now[i].name, now[j].name)
    {
      LeqExactly(Key(now[i]), Key(now[j]));
    }
  }

  /** After a failure a second call starts over: it decrypts the plain names again. It stops where the first of those
      cannot be decrypted, and at the entry where the first call stopped only if all of them can. */
  lemma AfterFailure(d: Decryption, was: seq<File>)
    requires Reached(d, was) < |was|
    ensures var k := Reached(d, was);
            var again, plain := Reached(d, RenamedUpTo(d, was, k)), AllRenamed(d, was[..k]);
            && again == Reached(d, plain) && again <= k
            && (again == k <==> forall i | 0 <= i < k :: Decryptable(d, plain[i]))
  {
    var k := Reached(d, was);
    var now, plain := RenamedUpTo(d, was, k), AllRenamed(d, was[..k]);
    var j := Reached(d, plain);
    assert forall i | 0 <= i < k :: now[i] == plain[i];
    assert k <= |now| && now[k] == was[k];
    ReachedIs(d, now, j);
  }
}
