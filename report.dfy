/**
 * The two scans in the report of dvdnav.c, over libdvdnav's answers given
 * as values: the title loop, which prints one TITLE line per described
 * title and keeps the title holding the greatest chapter offset, and the
 * subtitle loop, which prints one SUB line per active subtitle slot of
 * that title.
 */
module Report {
  import opened Ticks

  /** The C types uint8_t and uint16_t. */
  type u8 = x: int | 0 <= x < 0x100
  type u16 = x: int | 0 <= x < 0x1_0000

  /** The number of subtitle slots probed. */
  const SUB_SLOTS: nat := 32
  /** The logical stream number meaning "no stream in this slot". */
  const NO_STREAM: u8 := 0xff
  /** The language code meaning "unknown language". */
  const UNKNOWN_LANG: u16 := 0xffff

  // Selection of indices in order

  /** The indices below `n` that satisfy `p`, in increasing order. */
  function Selected(n: nat, p: nat -> bool): (r: seq<nat>)
    ensures forall i: nat :: i in r <==> i < n && p(i)
    ensures forall a, b :: 0 <= a < b < |r| ==> r[a] < r[b]
  {
    if n == 0 then []
    else
      var prev := Selected(n - 1, p);
      assert forall k :: 0 <= k < |prev| ==> prev[k] in prev;
      prev + (if p(n - 1) then [n - 1] else [])
  }

  /** `f` applied to each index below `n` that satisfies `p`, in index order, as a loop appends them. */
  function Gather<T>(n: nat, p: nat -> bool, f: nat --> T): seq<T>
    requires forall i :: 0 <= i < n && p(i) ==> f.requires(i)
  {
    if n == 0 then []
    else Gather(n - 1, p, f) + (if p(n - 1) then [f(n - 1)] else [])
  }

  /** What Gather appends is `f` of the selected indices, one for one. */
  lemma {:induction false} GatherSelected<T>(n: nat, p: nat -> bool, f: nat --> T)
    requires forall i :: 0 <= i < n && p(i) ==> f.requires(i)
    ensures |Gather(n, p, f)| == |Selected(n, p)|
    ensures forall k :: 0 <= k < |Gather(n, p, f)| ==>
              f.requires(Selected(n, p)[k]) && Gather(n, p, f)[k] == f(Selected(n, p)[k])
  {
    if n > 0 {
      GatherSelected(n - 1, p, f);
    }
  }

  // Titles

  /** What dvdnav_describe_title_chapters hands back for one title. */
  datatype ChapterLookup =
    | Described(times: seq<u64>, duration: u64)  // the chapter offsets (their count is the returned nchapters) and the duration, in ticks
    | NoTimes                                    // the offsets pointer stayed NULL

  /** A title is reported only when it has at least one chapter and its offsets came back. */
  predicate Usable(c: ChapterLookup) {
    c.Described? && |c.times| > 0
  }

  /** The content of one TITLE line. */
  datatype TitleLine = TitleLine(title: nat, duration: Stamp, clock: Clock, chapters: seq<Stamp>)

  /** The TITLE line of usable title number `title`, described by `c`. */
  function TitleLineOf(title: nat, c: ChapterLookup): (line: TitleLine)
    requires Usable(c)
    ensures line.title == title && |line.chapters| == |c.times|
    ensures line.duration.millis < 1000
    ensures line.duration.secs * 1000 + line.duration.millis == TicksToMs(c.duration)
    ensures line.clock.millis < 1000 && line.clock.minutes < 60 && line.clock.seconds < 60
    ensures (line.clock.hours * 3600 + line.clock.minutes * 60 + line.clock.seconds) * 1000 + line.clock.millis
            == TicksToMs(c.duration)
    ensures forall k :: 0 <= k < |c.times| ==>
              line.chapters[k].millis < 1000 &&
              line.chapters[k].secs * 1000 + line.chapters[k].millis == TicksToMs(c.times[k])
  {
    var ms := TicksToMs(c.duration);
    TitleLine(title, ToStamp(ms), ToClock(ms), seq(|c.times|, k requires 0 <= k < |c.times| => ToStamp(TicksToMs(c.times[k]))))
  }

  /** Title index `t` (title number t + 1) is reported. */
  function UsableTitle(titles: seq<ChapterLookup>): nat -> bool {
    (t: nat) => t < |titles| && Usable(titles[t])
  }

  /** The TITLE line of title index `t`. */
  function LineOfTitle(titles: seq<ChapterLookup>): nat --> TitleLine {
    (t: nat) requires t < |titles| && Usable(titles[t]) => TitleLineOf(t + 1, titles[t])
  }

  /** The TITLE lines of the first `n` titles, in title order. */
  function TitleLinesUpTo(titles: seq<ChapterLookup>, n: nat): seq<TitleLine> {
    Gather(n, UsableTitle(titles), LineOfTitle(titles))
  }

  /** One more title appends its TITLE line exactly when it is reported. */
  lemma TitleLinesStep(titles: seq<ChapterLookup>, n: nat)
    requires n < |titles|
    ensures TitleLinesUpTo(titles, n + 1)
            == TitleLinesUpTo(titles, n) + (if Usable(titles[n]) then [TitleLineOf(n + 1, titles[n])] else [])
  {
  }

  /** The converted offset of chapter `c` of title index `t`. */
  function ChapterMs(titles: seq<ChapterLookup>, t: nat, c: nat): u64
    requires t < |titles| && Usable(titles[t]) && c < |titles[t].times|
  {
    TicksToMs(titles[t].times[c])
  }

  /** No chapter offset of the first `n` usable titles exceeds `m`. */
  ghost predicate AllWithin(titles: seq<ChapterLookup>, n: nat, m: int) {
    forall t, c :: 0 <= t < n && t < |titles| && Usable(titles[t]) && 0 <= c < |titles[t].times| ==>
      ChapterMs(titles, t, c) <= m
  }

  /** Every chapter offset of title index `t` is below `m` (vacuous for a title not reported). */
  ghost predicate AllBelow(titles: seq<ChapterLookup>, t: nat, m: int) {
    t < |titles| && Usable(titles[t]) ==>
      forall c :: 0 <= c < |titles[t].times| ==> ChapterMs(titles, t, c) < m
  }

  /** Some chapter offset of usable title index `t` equals `m`. */
  ghost predicate Reaches(titles: seq<ChapterLookup>, t: nat, m: int) {
    t < |titles| && Usable(titles[t]) &&
    exists c :: 0 <= c < |titles[t].times| && ChapterMs(titles, t, c) == m
  }

  /**
   * After the first `n` titles: `longest` is the lowest-numbered of them
   * holding the strictly greatest converted chapter offset `m`, and is 0
   * when no offset so far exceeds 0.
   */
  ghost predicate LongestSoFar(titles: seq<ChapterLookup>, n: nat, longest: nat, m: int) {
    AllWithin(titles, n, m) &&
    (longest == 0 ==> m == 0) &&
    (longest > 0 ==>
       longest <= n && m > 0 && Reaches(titles, longest - 1, m) &&
       forall t :: 0 <= t < longest - 1 ==> AllBelow(titles, t, m))
  }

  /** `longest` and `m` are the longest title and the greatest chapter offset over all titles. */
  ghost predicate IsLongest(titles: seq<ChapterLookup>, longest: nat, m: int) {
    LongestSoFar(titles, |titles|, longest, m)
  }

  /**
   * Inside title index `n`, after its first `k` chapters: as LongestSoFar,
   * where title `n` counts with those chapters only.
   */
  ghost predicate LongestInTitle(titles: seq<ChapterLookup>, n: nat, k: nat, longest: nat, m: int)
    requires n < |titles| && Usable(titles[n]) && k <= |titles[n].times|
  {
    AllWithin(titles, n, m) &&
    (forall c :: 0 <= c < k ==> ChapterMs(titles, n, c) <= m) &&
    (longest == 0 ==> m == 0) &&
    (longest > 0 ==>
       longest <= n + 1 && m > 0 &&
       (longest <= n ==> Reaches(titles, longest - 1, m)) &&
       (longest == n + 1 ==> exists c :: 0 <= c < k && ChapterMs(titles, n, c) == m) &&
       forall t :: 0 <= t < longest - 1 ==> AllBelow(titles, t, m))
  }

  lemma EnterTitle(titles: seq<ChapterLookup>, n: nat, longest: nat, m: int)
    requires n < |titles| && Usable(titles[n]) && LongestSoFar(titles, n, longest, m)
    ensures LongestInTitle(titles, n, 0, longest, m)
  {
  }

  /** One chapter of the inner loop: a strictly greater offset moves the maximum to this title. */
  lemma {:induction false} StepChapter(titles: seq<ChapterLookup>, n: nat, k: nat, longest: nat, m: int)
    requires n < |titles| && Usable(titles[n]) && k < |titles[n].times|
    requires LongestInTitle(titles, n, k, longest, m)
    ensures var d := ChapterMs(titles, n, k);
            if d > m then LongestInTitle(titles, n, k + 1, n + 1, d)
            else LongestInTitle(titles, n, k + 1, longest, m)
  {
    var d := ChapterMs(titles, n, k);
    if d > m {
      forall t | 0 <= t < n
        ensures AllBelow(titles, t, d)
      {
        if t < |titles| && Usable(titles[t]) {
          forall c | 0 <= c < |titles[t].times|
            ensures ChapterMs(titles, t, c) < d
          {
            assert ChapterMs(titles, t, c) <= m;
          }
        }
      }
    }
  }

  lemma LeaveTitle(titles: seq<ChapterLookup>, n: nat, longest: nat, m: int)
    requires n < |titles| && Usable(titles[n]) && LongestInTitle(titles, n, |titles[n].times|, longest, m)
    ensures LongestSoFar(titles, n + 1, longest, m)
  {
  }

  lemma SkipTitle(titles: seq<ChapterLookup>, n: nat, longest: nat, m: int)
    requires n < |titles| && !Usable(titles[n]) && LongestSoFar(titles, n, longest, m)
    ensures LongestSoFar(titles, n + 1, longest, m)
  {
  }

  /** The conditions of IsLongest pin down one title and one maximum. */
  lemma IsLongestUnique(titles: seq<ChapterLookup>, l1: nat, m1: int, l2: nat, m2: int)
    requires IsLongest(titles, l1, m1) && IsLongest(titles, l2, m2)
    ensures l1 == l2 && m1 == m2
  {
    if l1 > 0 {
      ReachedIsBounded(titles, l1 - 1, m1, m2);
    }
    if l2 > 0 {
      ReachedIsBounded(titles, l2 - 1, m2, m1);
    }
  }

  /** A value some chapter reaches is at most any bound on all chapters, and not below itself. */
  lemma ReachedIsBounded(titles: seq<ChapterLookup>, t: nat, m: int, bound: int)
    requires Reaches(titles, t, m) && AllWithin(titles, |titles|, bound)
    ensures m <= bound && !AllBelow(titles, t, m)
  {
    var c :| 0 <= c < |titles[t].times| && ChapterMs(titles, t, c) == m;
  }

  /** When no chapter offset exceeds 0, no title is the longest: longest_title stays 0. */
  lemma NoOffsetNoLongest(titles: seq<ChapterLookup>, longest: nat, m: int)
    requires IsLongest(titles, longest, m) && AllWithin(titles, |titles|, 0)
    ensures longest == 0 && m == 0
  {
  }

  /** Two title tables that report the same titles with the same chapter offsets. */
  ghost predicate SameChapters(titles1: seq<ChapterLookup>, titles2: seq<ChapterLookup>) {
    |titles1| == |titles2| &&
    forall t :: 0 <= t < |titles1| ==>
      Usable(titles1[t]) == Usable(titles2[t]) && (Usable(titles1[t]) ==> titles1[t].times == titles2[t].times)
  }

  /** The longest title is chosen on chapter offsets alone: title durations play no part. */
  lemma LongestIgnoresDurations(titles1: seq<ChapterLookup>, titles2: seq<ChapterLookup>, longest: nat, m: int)
    requires SameChapters(titles1, titles2) && IsLongest(titles1, longest, m)
    ensures IsLongest(titles2, longest, m)
  {
    forall t, c | 0 <= t < |titles2| && Usable(titles2[t]) && 0 <= c < |titles2[t].times|
      ensures ChapterMs(titles2, t, c) <= m
    {
      assert ChapterMs(titles2, t, c) == ChapterMs(titles1, t, c);
    }
    forall t | 0 <= t < longest - 1
      ensures AllBelow(titles2, t, m)
    {
      assert AllBelow(titles1, t, m);
      if Usable(titles2[t]) {
        forall c | 0 <= c < |titles2[t].times|
          ensures ChapterMs(titles2, t, c) < m
        {
          assert ChapterMs(titles2, t, c) == ChapterMs(titles1, t, c);
        }
      }
    }
    if longest > 0 {
      var c :| 0 <= c < |titles1[longest - 1].times| && ChapterMs(titles1, longest - 1, c) == m;
      assert ChapterMs(titles2, longest - 1, c) == m;
    }
  }

  /**
   * The title loop of main: titles are numbered from 1; a title is printed
   * when its chapter count is positive and its offsets came back, and the
   * running maximum is updated over its converted chapter offsets (not
   * over its duration) with a strict comparison.
   */
  method ScanTitles(titles: seq<ChapterLookup>) returns (longest: nat, maxDuration: u64, lines: seq<TitleLine>)
    ensures IsLongest(titles, longest, maxDuration)
    ensures lines == TitleLinesUpTo(titles, |titles|)
    ensures var shown := Selected(|titles|, UsableTitle(titles));
            |lines| == |shown| &&
            forall k :: 0 <= k < |lines| ==>
              shown[k] < |titles| && Usable(titles[shown[k]]) && lines[k] == TitleLineOf(shown[k] + 1, titles[shown[k]])
  {
    maxDuration, longest, lines := 0, 0, [];
    var title := 1;
    while title <= |titles|
      invariant 1 <= title <= |titles| + 1
      invariant lines == TitleLinesUpTo(titles, title - 1)
      invariant LongestSoFar(titles, title - 1, longest, maxDuration)
    {
      ghost var n := title - 1;
      var lookup := titles[title - 1];
      TitleLinesStep(titles, n);
      if lookup.Described? && |lookup.times| > 0 {
        lines := lines + [TitleLineOf(title, lookup)];
        EnterTitle(titles, n, longest, maxDuration);
        var chapter := 0;
        while chapter < |lookup.times|
          invariant 0 <= chapter <= |lookup.times|
          invariant LongestInTitle(titles, n, chapter, longest, maxDuration)
        {
          StepChapter(titles, n, chapter, longest, maxDuration);
          var duration := TicksToMs(lookup.times[chapter]);
          if duration > maxDuration {
            maxDuration := duration;
            longest := title;
          }
          chapter := chapter + 1;
        }
        LeaveTitle(titles, n, longest, maxDuration);
      } else {
        SkipTitle(titles, n, longest, maxDuration);
      }
      title := title + 1;
    }
    GatherSelected(|titles|, UsableTitle(titles), LineOfTitle(titles));
    ghost var shown := Selected(|titles|, UsableTitle(titles));
    forall k | 0 <= k < |lines|
      ensures shown[k] < |titles| && Usable(titles[shown[k]]) && lines[k] == TitleLineOf(shown[k] + 1, titles[shown[k]])
    {
      assert shown[k] in shown;
    }
  }

  // Subtitles

  /** The content of one SUB line: title, logical stream, and the language code's two bytes. */
  datatype SubLine = SubLine(title: nat, stream: u8, lang: seq<u8>)

  /** A language code printed as two characters, high byte first. */
  function LangBytes(code: u16): (b: seq<u8>)
    ensures |b| == 2 && (b[0] as int) * 0x100 + (b[1] as int) == code as int
  {
    [code / 0x100, code % 0x100]
  }

  /** The slot holds a stream whose language is known. */
  function ActiveSlot(stream: nat -> u8, lang: u8 -> u16): nat -> bool {
    (i: nat) => stream(i) != NO_STREAM && lang(stream(i)) != UNKNOWN_LANG
  }

  /** The SUB line of slot `i` of title `title`. */
  function SubLineOfSlot(title: nat, stream: nat -> u8, lang: u8 -> u16): nat -> SubLine {
    (i: nat) => SubLine(title, stream(i), LangBytes(lang(stream(i))))
  }

  /** The SUB lines for the first `n` slots, in slot order. */
  function SubLinesUpTo(title: nat, stream: nat -> u8, lang: u8 -> u16, n: nat): seq<SubLine> {
    Gather(n, ActiveSlot(stream, lang), SubLineOfSlot(title, stream, lang))
  }

  /**
   * The subtitle loop of main, after the title was played: `stream` is
   * dvdnav_get_spu_logical_stream per slot, `lang` is
   * dvdnav_spu_stream_to_lang per logical stream. One SUB line per slot
   * among the 32 whose stream is not 0xff and whose language is not 0xffff,
   * in slot order, and nothing else.
   */
  method ScanSubtitles(title: nat, stream: nat -> u8, lang: u8 -> u16) returns (subs: seq<SubLine>)
    ensures subs == SubLinesUpTo(title, stream, lang, SUB_SLOTS)
    ensures var active := Selected(SUB_SLOTS, ActiveSlot(stream, lang));
            |subs| == |active| &&
            forall k :: 0 <= k < |subs| ==>
              subs[k] == SubLine(title, stream(active[k]), LangBytes(lang(stream(active[k]))))
  {
    subs := [];
    var slot := 0;
    while slot < SUB_SLOTS
      invariant 0 <= slot <= SUB_SLOTS
      invariant subs == SubLinesUpTo(title, stream, lang, slot)
    {
      var log := stream(slot);
      if log != NO_STREAM {
        var code := lang(log);
        if code != UNKNOWN_LANG {
          subs := subs + [SubLine(title, log, LangBytes(code))];
        }
      }
      slot := slot + 1;
    }
    GatherSelected(SUB_SLOTS, ActiveSlot(stream, lang), SubLineOfSlot(title, stream, lang));
  }
}
