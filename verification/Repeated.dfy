/** Records laid end to end and parsed until a declared number of bytes has been consumed
    (the loop of crates/steam/src/depot/manifest.rs:190-258, for any kind of record). */
module Repeated {
  import opened Base
  import opened NullStrings

  /** Takes one record off the front, never an empty one. */
  type Parser<T> = p: Bytes -> Option<(T, Bytes)>
    | forall b: Bytes :: p(b).Some? ==> |p(b).value.1| < |b|
    witness (_: Bytes) => None

  /** What it leaves is the end of what it was given. */
  ghost predicate Advances<T(!new)>(p: Parser<T>)
  {
    forall b: Bytes :: p(b).Some? ==> IsSuffix(p(b).value.1, b)
  }

  function Prepend<T>(list: seq<T>, more: Option<seq<T>>): Option<seq<T>>
  {
    if more.None? then None else Some(list + more.value)
  }

  lemma PrependTwice<T>(list: seq<T>, t: T, more: Option<seq<T>>)
    ensures Prepend(list, Prepend([t], more)) == Prepend(list + [t], more)
  {
    if more.Some? {
      assert list + ([t] + more.value) == list + [t] + more.value;
    }
  }

  lemma PrependNothing<T>(more: Option<seq<T>>)
    ensures Prepend([], more) == more
  {
    if more.Some? {
      assert [] + more.value == more.value;
    }
  }

  function Records<T>(p: Parser<T>, b: Bytes, consumed: nat, declared: nat): Option<seq<T>>
    decreases |b|
  {
    if consumed >= declared then Some([])
    else
      match p(b)
      case None => None
      case Some((t, rest)) => Prepend([t], Records(p, rest, consumed + (|b| - |rest|), declared))
  }

  /** With `list` read so far, `all` is what the loop will have read. */
  ghost predicate Pending<T(!new)>(p: Parser<T>, all: Option<seq<T>>, list: seq<T>, b: Bytes, consumed: nat,
                            declared: nat)
  {
    all == Prepend(list, Records(p, b, consumed, declared))
  }

  /** One turn of the loop. */
  lemma RecordsStep<T(!new)>(p: Parser<T>, all: Option<seq<T>>, list: seq<T>, b: Bytes, consumed: nat, declared: nat,
                      t: T, rest: Bytes)
    requires Pending(p, all, list, b, consumed, declared) && consumed < declared && p(b) == Some((t, rest))
    ensures Pending(p, all, list + [t], rest, consumed + (|b| - |rest|), declared)
  {
    PrependTwice(list, t, Records(p, rest, consumed + (|b| - |rest|), declared));
  }

  lemma PendingDone<T(!new)>(p: Parser<T>, all: Option<seq<T>>, list: seq<T>, b: Bytes, consumed: nat, declared: nat)
    requires Pending(p, all, list, b, consumed, declared) && consumed >= declared
    ensures all == Some(list)
  {
    assert list + [] == list;
  }

  /** `cuts` splits the front of `b` into one record per value; only the last one reaches the declared size. */
  ghost predicate Splits<T(!new)>(p: Parser<T>, b: Bytes, start: nat, declared: nat, list: seq<T>, cuts: seq<nat>)
  {
    && |cuts| == |list| + 1 && cuts[0] == start
    && (forall i: nat | i < |list| :: cuts[i] < declared && Between(p, b, list[i], cuts[i], cuts[i + 1]))
    && declared <= cuts[|list|] <= |b|
  }

  ghost predicate Between<T(!new)>(p: Parser<T>, b: Bytes, t: T, start: nat, end: nat)
  {
    start < end <= |b| && p(b[start..]) == Some((t, b[end..]))
  }

  lemma {:induction false} RecordsSplit<T(!new)>(p: Parser<T>, b: Bytes, start: nat, declared: nat)
    returns (cuts: seq<nat>)
    requires Advances(p) && start <= |b| && Records(p, b[start..], start, declared).Some?
    ensures Splits(p, b, start, declared, Records(p, b[start..], start, declared).value, cuts)
    decreases |b| - start
  {
    if start >= declared {
      cuts := [start];
    } else {
      var (t, rest) := p(b[start..]).value;
      var end := |b| - |rest|;
      SuffixAt(b, start, rest);
      var more := RecordsSplit(p, b, end, declared);
      assert Between(p, b, t, start, end);
      cuts := SplitsCons(p, b, start, end, declared, t, Records(p, rest, end, declared).value, more);
    }
  }

  lemma SuffixAt(b: Bytes, start: nat, rest: Bytes)
    requires start <= |b| && IsSuffix(rest, b[start..])
    ensures |rest| <= |b| - start && b[|b| - |rest|..] == rest
  {
  }

  lemma SplitsCons<T(!new)>(p: Parser<T>, b: Bytes, start: nat, end: nat, declared: nat, t: T, list: seq<T>,
                     cuts: seq<nat>) returns (all: seq<nat>)
    requires start < declared && Between(p, b, t, start, end) && Splits(p, b, end, declared, list, cuts)
    ensures Splits(p, b, start, declared, [t] + list, all)
  {
    all := [start] + cuts;
    var longer := [t] + list;
    forall i: nat | i < |longer| ensures all[i] < declared && Between(p, b, longer[i], all[i], all[i + 1]) {
      if i > 0 {
        assert all[i] == cuts[i - 1] && all[i + 1] == cuts[i] && longer[i] == list[i - 1];
        assert Between(p, b, list[i - 1], cuts[i - 1], cuts[i]);
      }
    }
  }

  lemma {:induction false} SplitRecords<T(!new)>(p: Parser<T>, b: Bytes, declared: nat, list: seq<T>, cuts: seq<nat>,
                                          i: nat)
    requires |cuts| > 0 && Splits(p, b, cuts[0], declared, list, cuts) && i <= |list|
    ensures cuts[i] <= |b| && Records(p, b[cuts[i]..], cuts[i], declared) == Some(list[i..])
    decreases |list| - i
  {
    if i < |list| {
      assert Between(p, b, list[i], cuts[i], cuts[i + 1]);
      SplitRecords(p, b, declared, list, cuts, i + 1);
      assert list[i..] == [list[i]] + list[i + 1..];
    }
  }

  /** The loop accepts exactly the inputs that split. */
  lemma RecordsExact<T(!new)>(p: Parser<T>, b: Bytes, declared: nat, list: seq<T>)
    requires Advances(p)
    ensures Records(p, b, 0, declared) == Some(list) <==> exists cuts :: Splits(p, b, 0, declared, list, cuts)
  {
    assert b[0..] == b;
    if Records(p, b, 0, declared) == Some(list) {
      var cuts := RecordsSplit(p, b, 0, declared);
    }
    if cuts :| Splits(p, b, 0, declared, list, cuts) {
      SplitRecords(p, b, declared, list, cuts, 0);
      assert list[0..] == list;
    }
  }

  // ---------------------------------------------------------------- encodings

  function Concat(pieces: seq<Bytes>): Bytes
  {
    if pieces == [] then [] else pieces[0] + Concat(pieces[1..])
  }

  ghost predicate Encodes<T(!new)>(p: Parser<T>, piece: Bytes, t: T)
  {
    forall rest: Bytes :: p(piece + rest) == Some((t, rest))
  }

  /** The declared size lies past the start of the last piece and not past its end. */
  predicate EndsInLast(pieces: seq<Bytes>, declared: nat)
  {
    if pieces == [] then declared == 0
    else |Concat(pieces[..|pieces| - 1])| < declared <= |Concat(pieces)|
  }

  lemma {:induction false} RecordsBack<T(!new)>(p: Parser<T>, pieces: seq<Bytes>, list: seq<T>, rest: Bytes,
                                         consumed: nat, declared: nat)
    requires |pieces| == |list| && forall i | 0 <= i < |list| :: Encodes(p, pieces[i], list[i])
    requires if pieces == [] then declared <= consumed
             else consumed + |Concat(pieces[..|pieces| - 1])| < declared <= consumed + |Concat(pieces)|
    ensures Records(p, Concat(pieces) + rest, consumed, declared) == Some(list)
    decreases |pieces|
  {
    if pieces != [] {
      var more := Concat(pieces[1..]) + rest;
      FrontPiece(p, pieces, list, rest);
      ConcatFront(pieces);
      RecordsBack(p, pieces[1..], list[1..], rest, consumed + |pieces[0]|, declared);
      RecordsFirst(p, Concat(pieces) + rest, consumed, declared, list[0], more);
      assert [list[0]] + list[1..] == list;
    }
  }

  lemma RecordsFirst<T(!new)>(p: Parser<T>, b: Bytes, consumed: nat, declared: nat, t: T, rest: Bytes)
    requires consumed < declared && p(b) == Some((t, rest))
    ensures Records(p, b, consumed, declared) == Prepend([t], Records(p, rest, consumed + (|b| - |rest|), declared))
  {
  }

  lemma FrontPiece<T(!new)>(p: Parser<T>, pieces: seq<Bytes>, list: seq<T>, rest: Bytes)
    requires pieces != [] && list != [] && Encodes(p, pieces[0], list[0])
    ensures var more := Concat(pieces[1..]) + rest;
            |Concat(pieces) + rest| == |pieces[0]| + |more| && p(Concat(pieces) + rest) == Some((list[0], more))
  {
    assert Concat(pieces) + rest == pieces[0] + (Concat(pieces[1..]) + rest);
  }

  /** Dropping the first piece drops it from every shorter front too. */
  lemma ConcatFront(pieces: seq<Bytes>)
    requires pieces != []
    ensures |Concat(pieces)| == |pieces[0]| + |Concat(pieces[1..])|
    ensures var tail := pieces[1..];
            if tail == [] then |Concat(pieces[..|pieces| - 1])| == 0
            else |Concat(pieces[..|pieces| - 1])| == |pieces[0]| + |Concat(tail[..|tail| - 1])|
  {
    var front, tail := pieces[..|pieces| - 1], pieces[1..];
    if tail != [] {
      assert front[1..] == tail[..|tail| - 1] && front[0] == pieces[0];
    }
  }
}
