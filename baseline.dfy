/** The first half of `compareFiles` (app.js lines 61-73): the folder names
    under the root other than today's become candidate dates, and the candidate
    nearest to "now" is the baseline to compare against.

    Dates are integers (a day or millisecond count); `parse` stands for
    `Date.parse` and is supplied by the caller. */
module Baseline {

  import opened Options
  import opened Sequences

  /** The test of app.js line 66, as a predicate on folder names. */
  function Differs(today: string): string -> bool
  {
    name => name != today
  }

  /** The folder names that the loop of lines 64-69 turns into dates. */
  function PreviousNames(dirs: seq<string>, today: string): seq<string>
  {
    Filter(dirs, Differs(today))
  }

  /** `Date.parse` applied to each name, in order. */
  function ParseAll(names: seq<string>, parse: string -> int): (dates: seq<int>)
    ensures |dates| == |names|
    ensures forall k :: 0 <= k < |names| ==> dates[k] == parse(names[k])
  {
    if names == [] then [] else ParseAll(names[..|names| - 1], parse) + [parse(names[|names| - 1])]
  }

  /** Parsing one more name appends its date. */
  lemma ParseAllSnoc(names: seq<string>, name: string, parse: string -> int)
    ensures ParseAll(names + [name], parse) == ParseAll(names, parse) + [parse(name)]
  {
    assert (names + [name])[..|names|] == names;
  }

  /** A candidate name is any listed folder name except today's. */
  lemma PreviousNamesMembers(dirs: seq<string>, today: string, name: string)
    ensures name in PreviousNames(dirs, today) <==> name in dirs && name != today
  {
    FilterMembers(dirs, Differs(today), name);
  }

  /** Today's folder is never a candidate. */
  lemma TodayNeverCandidate(dirs: seq<string>, today: string)
    ensures today !in PreviousNames(dirs, today)
  {
    PreviousNamesMembers(dirs, today, today);
  }

  /** The candidates keep listing order: the candidates of a listing split in
      two are those of the first part followed by those of the second. */
  lemma PreviousNamesInOrder(a: seq<string>, b: seq<string>, today: string)
    ensures PreviousNames(a + b, today) == PreviousNames(a, today) + PreviousNames(b, today)
  {
    FilterConcat(a, b, Differs(today));
  }

  /** When today has no folder yet, every listed folder is a candidate. */
  lemma NoTodayKeepsAll(dirs: seq<string>, today: string)
    requires today !in dirs
    ensures PreviousNames(dirs, today) == dirs
  {
    FilterKeepsAll(dirs, Differs(today));
  }

  /** The loop of lines 63-69: `push(Date.parse(name))` for every folder name
      other than today's, in listing order. */
  method PreviousScrapeDates(dirs: seq<string>, today: string, parse: string -> int)
    returns (dates: seq<int>)
    ensures dates == ParseAll(PreviousNames(dirs, today), parse)
    ensures |dates| <= |dirs|
  {
    dates := [];
    var i := 0;
    while i < |dirs|
      invariant 0 <= i <= |dirs|
      invariant dates == ParseAll(PreviousNames(dirs[..i], today), parse)
    {
      var folderName := dirs[i];
      ghost var names := PreviousNames(dirs[..i], today);
      assert dirs[..i + 1] == dirs[..i] + [folderName];
      FilterSnoc(dirs[..i], folderName, Differs(today));
      if folderName != today {
        ParseAllSnoc(names, folderName, parse);
        dates := dates + [parse(folderName)];
      } else {
        assert PreviousNames(dirs[..i + 1], today) == names + [] == names;
      }
      i := i + 1;
    }
    assert dirs[..i] == dirs;
    FilterShorter(dirs, Differs(today));
  }

  /** Distance between two dates. */
  function Dist(a: int, b: int): nat
  {
    if a <= b then b - a else a - b
  }

  /** The promise of `datefns.closestTo(now, dates)`: one of the dates, and no
      date is strictly nearer to `now`. Which of two equally near dates is
      chosen is left open. */
  predicate IsClosest(c: int, dates: seq<int>, now: int)
  {
    c in dates && forall d :: d in dates ==> Dist(c, now) <= Dist(d, now)
  }

  /** Every non-empty list of dates has a nearest one, so the promise can be kept. */
  lemma {:induction false} ClosestExists(dates: seq<int>, now: int)
    requires |dates| > 0
    ensures exists c :: IsClosest(c, dates, now)
  {
    if |dates| == 1 {
      assert IsClosest(dates[0], dates, now);
    } else {
      ClosestExists(dates[1..], now);
      var c :| IsClosest(c, dates[1..], now);
      assert dates == [dates[0]] + dates[1..];
      if Dist(dates[0], now) <= Dist(c, now) {
        assert IsClosest(dates[0], dates, now);
      } else {
        assert IsClosest(c, dates, now);
      }
    }
  }

  /** A date strictly nearer than all others is the only one the promise allows. */
  lemma ClosestIsUnique(c: int, dates: seq<int>, now: int, d: int)
    requires IsClosest(c, dates, now)
    requires d in dates
    requires forall e :: e in dates && e != d ==> Dist(d, now) < Dist(e, now)
    ensures c == d
  {
  }

  /** With captures on the 1st, 10th and 20th of a month and today the 12th,
      the 10th (two days away) is the only possible baseline. */
  lemma NearestOfThree(c: int)
    requires IsClosest(c, [1, 10, 20], 12)
    ensures c == 10
  {
    ClosestIsUnique(c, [1, 10, 20], 12, 10);
  }

  /** Lines 61-72: the baseline date, or None when no folder other than today's
      exists (then `closestTo` has nothing to choose from and no previous
      folder can be formed). */
  method SelectBaseline(dirs: seq<string>, today: string, now: int, parse: string -> int)
    returns (baseline: Option<int>)
    ensures baseline.None? <==> PreviousNames(dirs, today) == []
    ensures baseline.Some? ==> IsClosest(baseline.value, ParseAll(PreviousNames(dirs, today), parse), now)
    ensures baseline.Some? ==> exists k :: 0 <= k < |dirs| && dirs[k] != today && parse(dirs[k]) == baseline.value
  {
    var dates := PreviousScrapeDates(dirs, today, parse);
    if |dates| == 0 {
      return None;
    }
    ClosestExists(dates, now);
    var c :| IsClosest(c, dates, now);
    var k :| 0 <= k < |dates| && dates[k] == c;
    var names := PreviousNames(dirs, today);
    PreviousNamesMembers(dirs, today, names[k]);
    baseline := Some(c);
  }
}
