/** Paging through the snapshots of one volume; the token is the key of the snapshot
    that comes next. */
module SnapPaging {
  import opened Storage

  datatype SnapPage = SnapPage(entries: seq<Snapshot>, next: string)

  /** Position of the first snapshot with this key. */
  function KeyPosition(snaps: seq<Snapshot>, key: string): (i: nat)
    ensures i <= |snaps|
    ensures i < |snaps| ==> snaps[i].Path == key
    ensures forall k :: 0 <= k < i ==> snaps[k].Path != key
  {
    if snaps == [] || snaps[0].Path == key then 0 else 1 + KeyPosition(snaps[1..], key)
  }

  function StartOf(snaps: seq<Snapshot>, token: string): (i: nat)
    ensures i <= |snaps|
  {
    if token == "" then 0 else KeyPosition(snaps, token)
  }

  /** The snapshots somebody created; the others are not listed. */
  function Visible(snaps: seq<Snapshot>): (v: seq<Snapshot>)
    ensures |v| <= |snaps|
  {
    if snaps == [] then []
    else Visible(snaps[..|snaps| - 1])
         + if snaps[|snaps| - 1].CreatedBy == "" then [] else [snaps[|snaps| - 1]]
  }

  datatype Cut = Cut(end: nat, full: bool)

  /** Where a page ends that has `shown` entries so far, and whether its limit ends it. */
  function EndOf(snaps: seq<Snapshot>, i: nat, shown: nat, max: int): (c: Cut)
    requires i <= |snaps|
    ensures i <= c.end <= |snaps| && (if c.full then i < c.end else c.end == |snaps|)
    decreases |snaps| - i
  {
    if i == |snaps| then Cut(i, false)
    else if snaps[i].CreatedBy == "" then EndOf(snaps, i + 1, shown, max)
    else if max != 0 && shown + 1 == max then Cut(i + 1, true)
    else EndOf(snaps, i + 1, shown + 1, max)
  }

  function PageFrom(snaps: seq<Snapshot>, start: nat, max: int): SnapPage
    requires start <= |snaps|
  {
    var c := EndOf(snaps, start, 0, max);
    SnapPage(Visible(snaps[start..c.end]), if c.full && c.end < |snaps| then snaps[c.end].Path else "")
  }

  /** The page for a token. */
  function PageOf(snaps: seq<Snapshot>, token: string, max: int): SnapPage {
    PageFrom(snaps, StartOf(snaps, token), max)
  }

  /** Walks over all snapshots, skipping those before the token. */
  method ListVolumeSnaps(snaps: seq<Snapshot>, token: string, maxEntries: int) returns (page: SnapPage)
    ensures page == PageOf(snaps, token, maxEntries)
  {
    var startingToken := token;
    var entries: seq<Snapshot>, next := [], "";
    var i := 0;
    WalkStarts(snaps, token, maxEntries);
    while i < |snaps|
      invariant i <= |snaps| && next == ""
      invariant Walking(snaps, token, maxEntries, i, startingToken, entries)
    {
      if snaps[i].Path == startingToken {
        WalkArrives(snaps, token, maxEntries, i, startingToken, entries);
        startingToken := "";
      }
      if startingToken == "" {
        if snaps[i].CreatedBy == "" {
          WalkOn(snaps, token, maxEntries, i, entries);
          i := i + 1;
          continue;
        }
        if maxEntries != 0 && |entries| + 1 == maxEntries {
          WalkFull(snaps, token, maxEntries, i, entries);
        } else {
          WalkOn(snaps, token, maxEntries, i, entries);
        }
        entries := entries + [snaps[i]];
        if maxEntries != 0 && |entries| == maxEntries {
          if i + 1 < |snaps| {
            next := snaps[i + 1].Path;
          }
          return SnapPage(entries, next);
        }
      }
      i := i + 1;
    }
    WalkEnds(snaps, token, maxEntries, startingToken, entries);
    page := SnapPage(entries, next);
  }

  lemma WalkEnds(snaps: seq<Snapshot>, token: string, max: int, looking: string, entries: seq<Snapshot>)
    requires Walking(snaps, token, max, |snaps|, looking, entries)
    ensures PageOf(snaps, token, max) == SnapPage(entries, "")
  {
    assert snaps[|snaps|..|snaps|] == [];
  }

  /** State of the walk in front of the i-th snapshot: either still looking for the
      token, or collecting since its start. */
  ghost predicate Walking(snaps: seq<Snapshot>, token: string, max: int, i: nat, looking: string,
                          entries: seq<Snapshot>)
    requires i <= |snaps|
  {
    var start := StartOf(snaps, token);
    if looking != "" then looking == token && i <= start && entries == []
    else start <= i && entries == Visible(snaps[start..i])
         && EndOf(snaps, i, |entries|, max) == EndOf(snaps, start, 0, max)
  }

  lemma WalkStarts(snaps: seq<Snapshot>, token: string, max: int)
    ensures Walking(snaps, token, max, 0, token, [])
  {
    assert snaps[0..0] == [];
  }

  lemma WalkArrives(snaps: seq<Snapshot>, token: string, max: int, i: nat, looking: string, entries: seq<Snapshot>)
    requires i < |snaps| && Walking(snaps, token, max, i, looking, entries) && snaps[i].Path == looking
    ensures Walking(snaps, token, max, i, "", entries)
  {
    assert snaps[i..i] == [];
  }

  /** The page is full with the i-th snapshot. */
  lemma WalkFull(snaps: seq<Snapshot>, token: string, max: int, i: nat, entries: seq<Snapshot>)
    requires i < |snaps| && Walking(snaps, token, max, i, "", entries)
    requires snaps[i].CreatedBy != "" && max != 0 && |entries| + 1 == max
    ensures PageOf(snaps, token, max)
            == SnapPage(entries + [snaps[i]], if i + 1 < |snaps| then snaps[i + 1].Path else "")
  {
    var start := StartOf(snaps, token);
    assert EndOf(snaps, start, 0, max) == Cut(i + 1, true);
    OneMoreVisible(snaps, start, i);
  }

  lemma WalkOn(snaps: seq<Snapshot>, token: string, max: int, i: nat, entries: seq<Snapshot>)
    requires i < |snaps| && Walking(snaps, token, max, i, "", entries)
    requires snaps[i].CreatedBy == "" || max == 0 || |entries| + 1 != max
    ensures Walking(snaps, token, max, i + 1, "", entries + if snaps[i].CreatedBy == "" then [] else [snaps[i]])
  {
    OneMoreVisible(snaps, StartOf(snaps, token), i);
  }

  lemma OneMoreVisible(snaps: seq<Snapshot>, start: nat, i: nat)
    requires start <= i < |snaps|
    ensures Visible(snaps[start..i + 1])
            == Visible(snaps[start..i]) + if snaps[i].CreatedBy == "" then [] else [snaps[i]]
  {
    assert snaps[start..i + 1][..i - start] == snaps[start..i];
  }

  lemma {:induction false} VisibleConcat(a: seq<Snapshot>, b: seq<Snapshot>)
    ensures Visible(a + b) == Visible(a) + Visible(b)
    decreases |b|
  {
    if b == [] {
      assert a + b == a;
    } else {
      VisibleConcat(a, b[..|b| - 1]);
      assert (a + b)[..|a + b| - 1] == a + b[..|b| - 1];
    }
  }

  lemma {:induction false} PageLimit(snaps: seq<Snapshot>, i: nat, shown: nat, max: int)
    requires i <= |snaps| && 0 <= shown < max
    ensures shown + |Visible(snaps[i..EndOf(snaps, i, shown, max).end])| <= max
    decreases |snaps| - i
  {
    var end := EndOf(snaps, i, shown, max).end;
    if i < |snaps| {
      assert snaps[i..end] == [snaps[i]] + snaps[i + 1..end];
      VisibleConcat([snaps[i]], snaps[i + 1..end]);
      assert [snaps[i]][..0] == [];
      if snaps[i].CreatedBy == "" {
        PageLimit(snaps, i + 1, shown, max);
      } else if shown + 1 != max {
        PageLimit(snaps, i + 1, shown + 1, max);
      } else {
        assert snaps[i + 1..end] == [];
      }
    }
  }

  /* ---------------------------------------------------------------- following tokens */

  /** Keys that can serve as tokens. */
  ghost predicate GoodKeys(snaps: seq<Snapshot>) {
    && (forall i :: 0 <= i < |snaps| ==> snaps[i].Path != "")
    && (forall i, j :: 0 <= i < j < |snaps| ==> snaps[i].Path != snaps[j].Path)
  }

  lemma KeyFound(snaps: seq<Snapshot>, i: nat)
    requires GoodKeys(snaps) && i < |snaps|
    ensures KeyPosition(snaps, snaps[i].Path) == i
  {
  }

  /** The pages a caller sees that follows the tokens; total, so they run out. */
  ghost function DrainSnaps(snaps: seq<Snapshot>, token: string, size: nat -> int, k: nat): (pages: seq<SnapPage>)
    requires GoodKeys(snaps)
    ensures |pages| >= 1 && pages[0] == PageOf(snaps, token, size(k))
    decreases |snaps| - StartOf(snaps, token)
  {
    var p := PageOf(snaps, token, size(k));
    if p.next == "" then [p]
    else
      KeyFound(snaps, EndOf(snaps, StartOf(snaps, token), 0, size(k)).end);
      [p] + DrainSnaps(snaps, p.next, size, k + 1)
  }

  ghost function SnapEntries(pages: seq<SnapPage>): seq<Snapshot> {
    if pages == [] then [] else pages[0].entries + SnapEntries(pages[1..])
  }

  lemma CutAt(snaps: seq<Snapshot>, i: nat, j: nat)
    requires i <= j <= |snaps|
    ensures snaps[i..] == snaps[i..j] + snaps[j..]
  {
  }

  lemma {:induction false} DrainSnapsFrom(snaps: seq<Snapshot>, token: string, size: nat -> int, k: nat)
    requires GoodKeys(snaps)
    ensures SnapEntries(DrainSnaps(snaps, token, size, k)) == Visible(snaps[StartOf(snaps, token)..])
    decreases |snaps| - StartOf(snaps, token)
  {
    var start := StartOf(snaps, token);
    var end := EndOf(snaps, start, 0, size(k)).end;
    var p := PageOf(snaps, token, size(k));
    var pages := DrainSnaps(snaps, token, size, k);
    CutAt(snaps, start, end);
    VisibleConcat(snaps[start..end], snaps[end..]);
    if p.next == "" {
      assert snaps[end..] == [];
      assert pages == [p] && SnapEntries(pages[1..]) == [];
    } else {
      KeyFound(snaps, end);
      DrainSnapsFrom(snaps, p.next, size, k + 1);
      var rest := DrainSnaps(snaps, p.next, size, k + 1);
      assert pages == [p] + rest && pages[1..] == rest;
    }
  }

  /** With keys that differ, following the tokens shows every visible snapshot once, in
      order, and every page keeps its limit. */
  lemma VolumeSnapsComplete(snaps: seq<Snapshot>, size: nat -> int)
    requires GoodKeys(snaps)
    ensures SnapEntries(DrainSnaps(snaps, "", size, 0)) == Visible(snaps)
    ensures forall token: string, max: int :: max > 0 ==> |PageOf(snaps, token, max).entries| <= max
  {
    DrainSnapsFrom(snaps, "", size, 0);
    assert snaps[0..] == snaps;
    forall token: string, max: int | max > 0 ensures |PageOf(snaps, token, max).entries| <= max {
      PageLimit(snaps, StartOf(snaps, token), 0, max);
    }
  }

  /* ---------------------------------------------------------------- one key for all */

  /** What the provider delivers for one volume: every snapshot carries the volume's path. */
  predicate SameKeys(snaps: seq<Snapshot>, key: string) {
    forall i :: 0 <= i < |snaps| ==> snaps[i].Path == key
  }

  lemma SnapsOfSameKeys(node: Node, path: string)
    ensures SameKeys(SnapsOf(node, path), path)
  {
  }

  /** A token that is the key of no snapshot gives an empty page. */
  lemma UnknownToken(snaps: seq<Snapshot>, token: string, max: int)
    requires token != "" && forall i :: 0 <= i < |snaps| ==> snaps[i].Path != token
    ensures PageOf(snaps, token, max) == SnapPage([], "")
  {
    assert snaps[|snaps|..|snaps|] == [];
  }

  lemma {:induction false} NoLimitNoEnd(snaps: seq<Snapshot>, i: nat, shown: nat)
    requires i <= |snaps|
    ensures EndOf(snaps, i, shown, 0) == Cut(|snaps|, false)
    decreases |snaps| - i
  {
    if i < |snaps| {
      NoLimitNoEnd(snaps, i + 1, if snaps[i].CreatedBy == "" then shown else shown + 1);
    }
  }

  /** Then every continuation is the first page again. */
  lemma ContinuationRepeats(snaps: seq<Snapshot>, key: string, max: int)
    requires key != "" && SameKeys(snaps, key)
    ensures PageOf(snaps, key, max) == PageOf(snaps, "", max)
    ensures PageOf(snaps, "", max).next in {"", key}
  {
    if snaps != [] {
      assert snaps[0].Path == key;
    }
  }

  /** The token a caller holds after `n` requests with one page size. */
  ghost function TokenAfter(snaps: seq<Snapshot>, token: string, max: int, n: nat): string
    decreases n
  {
    if n == 0 then token else PageOf(snaps, TokenAfter(snaps, token, max, n - 1), max).next
  }

  /** The entries of the n-th request. */
  ghost function EntriesAt(snaps: seq<Snapshot>, token: string, max: int, n: nat): seq<Snapshot> {
    PageOf(snaps, TokenAfter(snaps, token, max, n), max).entries
  }

  lemma {:induction false} TokensRepeat(snaps: seq<Snapshot>, key: string, max: int, n: nat)
    requires key != "" && SameKeys(snaps, key) && PageOf(snaps, "", max).next == key
    ensures TokenAfter(snaps, "", max, n + 1) == key
    ensures EntriesAt(snaps, "", max, n) == PageOf(snaps, "", max).entries
    decreases n
  {
    ContinuationRepeats(snaps, key, max);
    if n > 0 {
      TokensRepeat(snaps, key, max, n - 1);
    }
  }

  /** A page is cut short exactly when its limit is reached in front of the last snapshot. */
  lemma {:induction false} CutShortIff(snaps: seq<Snapshot>, i: nat, shown: nat, max: int)
    requires i <= |snaps| && (max > 0 ==> shown < max)
    ensures EndOf(snaps, i, shown, max).end < |snaps|
            <==> max > 0 && i < |snaps| && shown + |Visible(snaps[i..|snaps| - 1])| >= max
    decreases |snaps| - i
  {
    if i + 1 < |snaps| {
      var rest := snaps[i + 1..|snaps| - 1];
      assert snaps[i..|snaps| - 1] == [snaps[i]] + rest;
      VisibleConcat([snaps[i]], rest);
      assert [snaps[i]][..0] == [];
      if snaps[i].CreatedBy == "" {
        CutShortIff(snaps, i + 1, shown, max);
      } else if max <= 0 || shown + 1 != max {
        CutShortIff(snaps, i + 1, shown + 1, max);
      }
    } else if i < |snaps| {
      assert snaps[i..|snaps| - 1] == [];
    }
  }

  /** The limit is reached in front of the last snapshot. */
  predicate Overflows(snaps: seq<Snapshot>, max: int) {
    max > 0 && snaps != [] && |Visible(snaps[..|snaps| - 1])| >= max
  }

  /** For one volume the tokens never run out exactly when there is a limit and as many
      visible snapshots in front of the last one; then every page is the first page.
      Otherwise the first page is complete. */
  lemma VolumePagingIff(snaps: seq<Snapshot>, key: string, max: int)
    requires key != "" && SameKeys(snaps, key)
    ensures (exists n: nat :: n > 0 && TokenAfter(snaps, "", max, n) == "") <==> !Overflows(snaps, max)
    ensures !Overflows(snaps, max) ==> PageOf(snaps, "", max) == SnapPage(Visible(snaps), "")
    ensures Overflows(snaps, max) ==> forall n: nat :: EntriesAt(snaps, "", max, n) == PageOf(snaps, "", max).entries
  {
    ContinuationRepeats(snaps, key, max);
    CutShortIff(snaps, 0, 0, max);
    if snaps != [] {
      assert snaps[0..|snaps| - 1] == snaps[..|snaps| - 1];
    }
    if !Overflows(snaps, max) {
      assert snaps[0..|snaps|] == snaps;
      assert TokenAfter(snaps, "", max, 1) == "";
      assert exists n: nat :: n > 0 && TokenAfter(snaps, "", max, n) == "";
    } else {
      forall n: nat ensures EntriesAt(snaps, "", max, n) == PageOf(snaps, "", max).entries {
        TokensRepeat(snaps, key, max, n);
      }
      forall n: nat ensures n > 0 ==> TokenAfter(snaps, "", max, n) != "" {
        if n > 0 {
          TokensRepeat(snaps, key, max, n - 1);
        }
      }
      assert !(exists n: nat :: n > 0 && TokenAfter(snaps, "", max, n) == "");
    }
  }
}
