/**
 * The history screen: sessions ten to a page, an entry selected on the
 * page, the arrow keys moving the selection and turning the pages, and the
 * short duration shown beside each entry.
 */
module HistoryScreen {
  import opened Options
  import opened Text
  import opened JsMath
  import opened Cursor

  // ---------------------------------------------------------------- duration

  /** `formatDuration(seconds)`: "Ss" under a minute, "Mm Ss", or "Mm" on a whole minute. */
  function FormatDuration(seconds: nat): string {
    var m := seconds / 60;
    var s := seconds % 60;
    if m == 0 then NatToString(s) + "s"
    else if s > 0 then NatToString(m) + "m " + NatToString(s) + "s"
    else NatToString(m) + "m"
  }

  /** The seconds a shown duration stands for: "Ss", "Mm" or "Mm Ss". */
  function ReadDuration(t: string): Option<nat> {
    var parts := Split(t, ' ');
    if |parts| == 1 then
      match (ReadUnit(parts[0], 's'), ReadUnit(parts[0], 'm'))
      case (Some(s), _) => Some(s)
      case (None, Some(m)) => Some(60 * m)
      case _ => None
    else if |parts| == 2 then
      match (ReadUnit(parts[0], 'm'), ReadUnit(parts[1], 's'))
      case (Some(m), Some(s)) => Some(60 * m + s)
      case _ => None
    else None
  }

  /** "Ss" reads as S seconds. */
  lemma ReadSecondsPhrase(s: nat)
    ensures ReadDuration(NatToString(s) + "s") == Some(s)
  {
    var secs := NatToString(s) + ['s'];
    UnitWordHasNoSpace(s, 's');
    SplitWithoutSeparator(secs, ' ');
    ReadUnitOf(s, 's');
  }

  /** "Mm" reads as M minutes: it does not end in "s", so it is not read as seconds. */
  lemma ReadMinutesPhrase(m: nat)
    ensures ReadDuration(NatToString(m) + "m") == Some(60 * m)
  {
    var mins := NatToString(m) + ['m'];
    UnitWordHasNoSpace(m, 'm');
    SplitWithoutSeparator(mins, ' ');
    ReadUnitOf(m, 'm');
    assert mins[|mins| - 1] != 's';
  }

  /** Two words, read in minutes and in seconds, read as their sum in seconds. */
  lemma ReadDurationOfTwoWords(t: string, a: string, b: string, m: nat, s: nat)
    requires Split(t, ' ') == [a, b]
    requires ReadUnit(a, 'm') == Some(m) && ReadUnit(b, 's') == Some(s)
    ensures ReadDuration(t) == Some(60 * m + s)
  {
  }

  /** "Mm Ss" reads as M minutes and S seconds. */
  lemma ReadMinutesSecondsPhrase(m: nat, s: nat)
    ensures ReadDuration(NatToString(m) + "m " + NatToString(s) + "s") == Some(60 * m + s)
  {
    var mins := NatToString(m) + ['m'];
    var secs := NatToString(s) + ['s'];
    var t := NatToString(m) + "m " + NatToString(s) + "s";
    assert t == mins + [' '] + secs;
    UnitWordHasNoSpace(m, 'm');
    UnitWordHasNoSpace(s, 's');
    SplitTwoWords(mins, secs);
    ReadUnitOf(m, 'm');
    ReadUnitOf(s, 's');
    ReadDurationOfTwoWords(t, mins, secs, m, s);
  }

  /** A shown duration reads back as the seconds it was made from. */
  lemma ReadDurationOfFormat(seconds: nat)
    ensures ReadDuration(FormatDuration(seconds)) == Some(seconds)
  {
    var m, s := seconds / 60, seconds % 60;
    assert seconds == 60 * m + s;
    if m == 0 {
      ReadSecondsPhrase(s);
    } else if s > 0 {
      ReadMinutesSecondsPhrase(m, s);
    } else {
      ReadMinutesPhrase(m);
    }
  }

  /** Different durations are shown differently. */
  lemma FormatDurationInjective(a: nat, b: nat)
    requires FormatDuration(a) == FormatDuration(b)
    ensures a == b
  {
    ReadDurationOfFormat(a);
    ReadDurationOfFormat(b);
  }

  /**
   * Under a minute one word "Ss"; from a minute on, "Mm Ss" when seconds are
   * left over and "Mm" otherwise, with M the whole minutes and S the seconds
   * left over, each written without a leading zero.
   */
  lemma FormatDurationShape(seconds: nat)
    ensures var t := FormatDuration(seconds);
      var w := Split(t, ' ');
      var m := seconds / 60;
      var s := seconds % 60;
      && (m == 0 ==>
            && |w| == 1 && ReadUnit(w[0], 's') == Some(seconds)
            && (seconds > 0 ==> w[0][0] != '0'))
      && (m > 0 && s > 0 ==>
            && |w| == 2
            && ReadUnit(w[0], 'm') == Some(m) && w[0][0] != '0'
            && ReadUnit(w[1], 's') == Some(s) && w[1][0] != '0')
      && (m > 0 && s == 0 ==>
            && |w| == 1 && ReadUnit(w[0], 'm') == Some(m) && w[0][0] != '0')
  {
    var m, s := seconds / 60, seconds % 60;
    var t := FormatDuration(seconds);
    if m == 0 {
      var secs := NatToString(s) + ['s'];
      UnitWordShape(s, 's');
      assert t == secs;
      SplitWithoutSeparator(secs, ' ');
    } else {
      var mins := NatToString(m) + ['m'];
      UnitWordShape(m, 'm');
      if s > 0 {
        var secs := NatToString(s) + ['s'];
        UnitWordShape(s, 's');
        assert t == mins + [' '] + secs;
        SplitTwoWords(mins, secs);
      } else {
        assert t == mins;
        SplitWithoutSeparator(mins, ' ');
      }
    }
  }

  // ------------------------------------------------------------------ paging

  const PAGE_SIZE: nat := 10

  /** `Math.max(1, Math.ceil(n / PAGE_SIZE))`. */
  function TotalPages(n: nat): (pages: nat)
    ensures pages >= 1
    ensures n == 0 ==> pages == 1
    ensures n > 0 ==> (pages - 1) * PAGE_SIZE < n <= pages * PAGE_SIZE
  {
    var c := Ceil(n as real / PAGE_SIZE as real);
    if c > 1 then c else 1
  }

  /** `sessions.slice(page * PAGE_SIZE, page * PAGE_SIZE + PAGE_SIZE)`, with JavaScript's clamping of both ends. */
  function PageOf<T>(sessions: seq<T>, page: nat): (shown: seq<T>)
    ensures |shown| <= PAGE_SIZE
  {
    var start := page * PAGE_SIZE;
    var lo := if start < |sessions| then start else |sessions|;
    var hi := if start + PAGE_SIZE < |sessions| then start + PAGE_SIZE else |sessions|;
    sessions[lo..hi]
  }

  /** How many entries page `page` shows out of `n`. */
  function PageLength(n: nat, page: nat): nat {
    var start := page * PAGE_SIZE;
    if start >= n then 0 else if n - start < PAGE_SIZE then n - start else PAGE_SIZE
  }

  /**
   * Session `i` is shown on page `i / 10`, at place `i % 10`, and that page
   * exists; every page that exists shows at least one session once there is one.
   */
  lemma PagesCoverSessions<T>(sessions: seq<T>, i: nat)
    requires i < |sessions|
    ensures i / PAGE_SIZE < TotalPages(|sessions|)
    ensures i % PAGE_SIZE < |PageOf(sessions, i / PAGE_SIZE)|
    ensures PageOf(sessions, i / PAGE_SIZE)[i % PAGE_SIZE] == sessions[i]
  {
  }

  lemma PageLengthOf<T>(sessions: seq<T>, page: nat)
    ensures |PageOf(sessions, page)| == PageLength(|sessions|, page)
    ensures |sessions| > 0 && page < TotalPages(|sessions|) ==> PageLength(|sessions|, page) >= 1
  {
  }

  // -------------------------------------------------------------------- keys

  datatype HistoryKey = Escape | Up | Down | Left | Right | OtherKey

  /** The page shown and the entry selected on it. */
  datatype HistoryView = HistoryView(page: nat, selected: int)

  datatype HistoryReaction = HistoryReaction(view: HistoryView, back: bool)

  /**
   * The key handler over `n` sessions. Up and down move the selection round
   * the current page; left and right turn the page when there is one to
   * turn to, and start again at its first entry; Escape goes back.
   */
  function HistoryStep(v: HistoryView, n: nat, key: HistoryKey): HistoryReaction {
    var length := PageLength(n, v.page);
    match key
    case Escape => HistoryReaction(v, true)
    case Up => HistoryReaction(v.(selected := WrapUp(v.selected, length)), false)
    case Down => HistoryReaction(v.(selected := WrapDown(v.selected, length)), false)
    case Left =>
      if v.page > 0 then HistoryReaction(HistoryView(v.page - 1, 0), false) else HistoryReaction(v, false)
    case Right =>
      if v.page < TotalPages(n) - 1 then HistoryReaction(HistoryView(v.page + 1, 0), false)
      else HistoryReaction(v, false)
    case OtherKey => HistoryReaction(v, false)
  }

  /**
   * The page is one that exists; with sessions the selection is an entry of
   * it, and with none (where moving up from 0 gives -1) it is -1 or 0.
   */
  predicate ViewOk(v: HistoryView, n: nat) {
    && v.page < TotalPages(n)
    && (n > 0 ==> 0 <= v.selected < PageLength(n, v.page))
    && (n == 0 ==> -1 <= v.selected <= 0)
  }

  /** The screen opens on the first entry of the first page, which is a good view. */
  lemma InitialViewOk(n: nat)
    ensures ViewOk(HistoryView(0, 0), n)
  {
  }

  /** Every key keeps the view good. */
  lemma StepKeepsViewOk(v: HistoryView, n: nat, key: HistoryKey)
    requires ViewOk(v, n)
    ensures ViewOk(HistoryStep(v, n, key).view, n)
  {
    var length := PageLength(n, v.page);
    if n > 0 {
      WrapInRange(v.selected, length);
      assert PageLength(n, 0) >= 1;
      if key == Right && v.page < TotalPages(n) - 1 {
        assert (v.page + 1) * PAGE_SIZE < n;
      }
      if key == Left && v.page > 0 {
        assert (v.page - 1) * PAGE_SIZE < n;
      }
    }
  }

  /**
   * Turning the page always selects its first entry, and only left and
   * right turn it, by one; Escape alone goes back.
   */
  lemma PageTurns(v: HistoryView, n: nat, key: HistoryKey)
    ensures var r := HistoryStep(v, n, key);
      && (r.view.page != v.page ==> r.view.selected == 0 && (key == Left || key == Right))
      && (key == Left ==> r.view.page == if v.page > 0 then v.page - 1 else v.page)
      && (key == Right ==> r.view.page == if v.page + 1 < TotalPages(n) then v.page + 1 else v.page)
      && (r.back <==> key == Escape)
  {
  }

  /** On a page that shows entries, up from the first selects the last, down from the last selects the first, and each undoes the other. */
  lemma SelectionWraps(v: HistoryView, n: nat)
    requires ViewOk(v, n) && n > 0
    ensures var length := PageLength(n, v.page);
      && HistoryStep(v, n, Up).view.selected == (v.selected - 1) % length
      && HistoryStep(v, n, Down).view.selected == (v.selected + 1) % length
      && HistoryStep(HistoryStep(v, n, Up).view, n, Down).view == v
      && HistoryStep(HistoryStep(v, n, Down).view, n, Up).view == v
  {
    WrapInRange(v.selected, PageLength(n, v.page));
    WrapInverse(v.selected, PageLength(n, v.page));
  }

  /** The screen's page and selection, as the input handler updates them. */
  class HistoryCursor {
    const sessionCount: nat
    var page: nat
    var selectedIndex: int

    function View(): HistoryView
      reads this
    {
      HistoryView(page, selectedIndex)
    }

    constructor (sessionCount: nat)
      ensures this.sessionCount == sessionCount && View() == HistoryView(0, 0)
      ensures ViewOk(View(), sessionCount)
    {
      this.sessionCount := sessionCount;
      page := 0;
      selectedIndex := 0;
    }

    /** One key press; `back` reports that the screen asks to be left. */
    method HandleKey(key: HistoryKey) returns (back: bool)
      modifies this
      ensures HistoryReaction(View(), back) == HistoryStep(old(View()), sessionCount, key)
      ensures old(ViewOk(View(), sessionCount)) ==> ViewOk(View(), sessionCount)
    {
      if ViewOk(View(), sessionCount) {
        StepKeepsViewOk(View(), sessionCount, key);
      }
      var length := PageLength(sessionCount, page);
      back := false;
      if key == Escape {
        back := true;
      } else if key == Up {
        selectedIndex := if selectedIndex <= 0 then length - 1 else selectedIndex - 1;
      } else if key == Down {
        selectedIndex := if selectedIndex >= length - 1 then 0 else selectedIndex + 1;
      } else if key == Left && page > 0 {
        page := page - 1;
        selectedIndex := 0;
      } else if key == Right && page < TotalPages(sessionCount) - 1 {
        page := page + 1;
        selectedIndex := 0;
      }
    }
  }
}
