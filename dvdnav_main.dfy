/**
 * `main` of dvdnav.c: parse the arguments, open the device (a default one
 * when none was given), run the report, close the device, and turn the
 * outcome into the process exit code. Every libdvdnav call is an input:
 * a Disc value holds what each call answers.
 */
module DvdnavMain {
  import opened Wrappers
  import opened Ticks
  import opened CommandLine
  import opened Report

  /** Exit codes of the report. */
  const ERR_OK: int := 0
  const ERR_OPEN: int := 1
  const ERR_OTHER: int := 2

  /** The device scanned when no path is given. */
  const DEFAULT_DEVICE: string := "/dev/disk1"

  /** What libdvdnav answers, call by call. */
  datatype Disc = Disc(
    opens: string -> bool,               // dvdnav_open on a path succeeds
    readaheadOk: bool,                   // dvdnav_set_readahead_flag succeeds
    titles: Option<seq<ChapterLookup>>,  // dvdnav_get_number_of_titles fails (None), or one chapter lookup per title
    spuStream: (nat, nat) -> u8,         // dvdnav_get_spu_logical_stream of a slot, once a title is played
    spuLang: (nat, u8) -> u16,           // dvdnav_spu_stream_to_lang of a logical stream, once a title is played
    closes: bool)                        // dvdnav_close succeeds

  /** One line of the report on standard output. */
  datatype Line = Title(title: TitleLine) | Sub(sub: SubLine)

  function TitleOutput(lines: seq<TitleLine>): (out: seq<Line>)
    ensures |out| == |lines| && forall k :: 0 <= k < |out| ==> out[k] == Title(lines[k])
  {
    seq(|lines|, k requires 0 <= k < |lines| => Title(lines[k]))
  }

  function SubOutput(subs: seq<SubLine>): (out: seq<Line>)
    ensures |out| == |subs| && forall k :: 0 <= k < |out| ==> out[k] == Sub(subs[k])
  {
    seq(|subs|, k requires 0 <= k < |subs| => Sub(subs[k]))
  }

  /** dvdnav_get_spu_logical_stream per slot, once title `title` is played. */
  function StreamOfSlot(disc: Disc, title: nat): nat -> u8 {
    i => disc.spuStream(title, i)
  }

  /** dvdnav_spu_stream_to_lang per logical stream, once title `title` is played. */
  function LangOfStream(disc: Disc, title: nat): u8 -> u16 {
    s => disc.spuLang(title, s)
  }

  /** The report of a disc whose titles are `titles` and whose longest title is `longest`. */
  function ReportOutput(disc: Disc, titles: seq<ChapterLookup>, longest: nat): seq<Line> {
    TitleOutput(TitleLinesUpTo(titles, |titles|)) +
    SubOutput(SubLinesUpTo(longest, StreamOfSlot(disc, longest), LangOfStream(disc, longest), SUB_SLOTS))
  }

  /** The device path main opens once parsing has finished with `devpath`. */
  function DevicePath(devpath: Option<string>): (path: string)
    ensures devpath.Some? ==> path == devpath.value
    ensures devpath.None? ==> path == DEFAULT_DEVICE
  {
    devpath.GetOr(DEFAULT_DEVICE)
  }

  /**
   * `main`: `device` is the path given to dvdnav_open, `played` the title
   * given to dvdnav_title_play, `out` the report lines.
   *
   * A parse result of at most 0 exits with its negation, before any disc
   * access. Otherwise an open failure exits with 1 and prints nothing; an
   * opened disc exits with 0 when the last status (read-ahead flag, then
   * the title count) is OK and with 2 otherwise; the close result never
   * changes the exit code.
   */
  method Run(argv: seq<string>, disc: Disc) returns (exit: int, device: Option<string>, played: Option<nat>, out: seq<Line>)
    ensures exit in {0, 1, 2, 3}
    ensures Parse(argv).code <= 0 ==>
              exit == -Parse(argv).code && device == None && played == None && out == []
    ensures Parse(argv).code > 0 ==> device == Some(DevicePath(Parse(argv).devpath))
    ensures Parse(argv).code > 0 && !disc.opens(DevicePath(Parse(argv).devpath)) ==>
              exit == ERR_OPEN && played == None && out == []
    ensures Parse(argv).code > 0 && disc.opens(DevicePath(Parse(argv).devpath)) ==>
              var ok := disc.readaheadOk && disc.titles.Some?;
              exit == (if ok then ERR_OK else ERR_OTHER) &&
              (ok <==> played.Some?) &&
              (!ok ==> out == []) &&
              (ok ==> var titles := disc.titles.value;
                      var l := played.value;
                      (exists m :: IsLongest(titles, l, m)) &&
                      out == ReportOutput(disc, titles, l))
  {
    ParseCodeRange(argv, 1, false, None);
    var options := new Options();
    var result := ParseOptions(argv, options);
    if result <= 0 {
      return -result, None, None, [];
    }
    var devpath := if options.devpath.None? then DEFAULT_DEVICE else options.devpath.value;
    device, played, out := Some(devpath), None, [];
    if !disc.opens(devpath) {
      exit := ERR_OPEN;
      return;
    }
    var status := false;
    label report: {
      status := disc.readaheadOk;
      if !status {
        break report;
      }
      status := disc.titles.Some?;
      if !status {
        break report;
      }
      var titles := disc.titles.value;
      var longest, maxDuration, lines := ScanTitles(titles);
      played := Some(longest);
      var subs := ScanSubtitles(longest, StreamOfSlot(disc, longest), LangOfStream(disc, longest));
      out := TitleOutput(lines) + SubOutput(subs);
    }
    // dvdnav_close follows here; its failure is only logged, so `disc.closes` plays no part
    exit := if status then ERR_OK else ERR_OTHER;
  }
}
