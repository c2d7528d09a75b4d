# dvdnav-info, modelled in Dafny

`dvdnav` (dvdnav.c) scans a DVD through libdvdnav and prints one `TITLE`
line per title (its duration and chapter offsets, in `secs.ms` and
`hh:mm:ss.ms`) and one `SUB` line per subtitle stream of the longest title.
This project models the logic the file itself owns:

- the argument parser `parse_options` / `parse_option` (module
  `CommandLine`): a loop over argv with a `stop_options` flag, short option
  bundles, long names mapped to short letters through the `s_opt_long`
  table, one optional device path, and the result codes 1, 0, -1, -2, -3;
  the options record `options_t` is the class `Options`, whose handler
  `ParseOption` sets its `devpath` field;
- the time arithmetic (module `Ticks`): the 90 kHz tick to millisecond
  conversion `((d * 100) / 90) / 100` in uint64_t, wrap-around included,
  and the `secs.ms` and `hh:mm:ss.ms` splits;
- the two scans of the report (module `Report`): the title loop that keeps
  the running maximum of the converted chapter offsets and the title that
  first reached it, and the loop over the 32 subtitle slots that drops the
  sentinels 0xff (no stream) and 0xffff (unknown language);
- `main` (module `DvdnavMain`): how the parse result, the default device
  `/dev/disk1`, the open result and the last library status become the
  exit code 0, 1, 2 or 3.

Every libdvdnav call is an input: a `Disc` value says what `dvdnav_open`,
`dvdnav_set_readahead_flag`, `dvdnav_get_number_of_titles`,
`dvdnav_describe_title_chapters` (one `ChapterLookup` per title),
`dvdnav_get_spu_logical_stream`, `dvdnav_spu_stream_to_lang` and
`dvdnav_close` answer. Printed lines are modelled by their content
(`TitleLine`, `SubLine`), not by their bytes.

The longest title is the one holding the greatest converted chapter offset,
as the loop at dvdnav.c:144-151 computes it, despite the variable name
`max_duration` (dvdnav.c:121): title durations play no part
(`Report.LongestIgnoresDurations`). Only `-h`/`--help` and
`-s`/`--source` exist in this file.

## Model

| member | source | states |
|---|---|---|
| `Ticks.TicksToMs` | dvdnav.c:141 | the uint64_t conversion never exceeds the exact `d / 90` and equals it whenever `d * 100` does not wrap |
| `Ticks.TicksToMsExact` | dvdnav.c:141 | below the wrap bound the result is `d / 90`, the unique `ms` with `ms * 90 <= d < (ms + 1) * 90` |
| `Ticks.TicksToMsMonotone` | dvdnav.c:145 | below the wrap bound a larger tick count never converts to fewer milliseconds |
| `Ticks.TicksToMsWrapsPastBound` | dvdnav.c:141 | 184467440737095516 is the last tick count converted exactly; one tick more converts to 0 |
| `Ticks.NestedDivision` | dvdnav.c:141 | two unsigned floor divisions in a row are one division by the product |
| `Ticks.ToStamp` | dvdnav.c:146 | the `secs.ms` fields have `ms < 1000` and give back the value as `secs * 1000 + ms` |
| `Ticks.ToClock` | dvdnav.c:142-143 | `ms < 1000`, `mm < 60`, `ss < 60`, hours unreduced, and `(hh*3600 + mm*60 + ss)*1000 + ms` is the value |
| `Ticks.ClockMatchesStamp` | dvdnav.c:142-143 | the `hh:mm:ss` fields add up to the `secs` field and both show the same milliseconds |
| `Ticks.ClockInjective` | dvdnav.c:142-143 | two values with the same `hh:mm:ss.ms` fields are equal |
| `CommandLine.LongToShortTable` | dvdnav.c:41-45 | `source` maps to `s`, `help` to `h`, every other long name to nothing |
| `CommandLine.OptionLetters` | dvdnav.c:242-259 | an option argument `-xyz` hands over its own letters `xyz`; `--help` hands over `h`, `--source` hands over `s`, any other long name nothing; a letter string handed over is non-empty and never starts with `-` |
| `CommandLine.OptionEffectCodes` | dvdnav.c:68-97 | the handler answers 1, 0 or -1; 0 exactly for `h` and `s`; 1 only for a plain argument |
| `CommandLine.Options.constructor` | dvdnav.c:99 | the options record starts with no device path |
| `CommandLine.Options.ParseOption` | dvdnav.c:68-97 | `h`/`s` return 0; a plain argument becomes the device path (1) unless one is set (-1); any other letter returns -1 |
| `CommandLine.ParseOptions` | dvdnav.c:232-283 | the loop with its `stop_options` flag, long-name lookup and bundle loop returns the code and leaves the device path that `ParseFrom` gives |
| `CommandLine.ParseCodeRange` | dvdnav.c:232-283 | the parse result is always one of 1, 0, -1, -2, -3 |
| `CommandLine.BundleCodeRange` | dvdnav.c:260-269 | a bundle of letters ends with 1, 0 or -1 |
| `CommandLine.OptionArgumentDecides` | dvdnav.c:235-269 | before `--`, the first option argument ends parsing: `-` gives -3, `--help`/`--source` 0, another long name -2, a bundle starting with `h` or `s` 0 and any other bundle -1; later letters and arguments are never read and the device path is unchanged |
| `CommandLine.ParseWithoutOptions` | dvdnav.c:270-280 | without options the first plain argument (or any argument after `--`) becomes the device path and a second one gives -3 |
| `CommandLine.ParseWithOption` | dvdnav.c:235-269 | an option argument before `--` means a result of at most 0 |
| `CommandLine.ParseSucceedsIff` | dvdnav.c:232-283 | the result is 1 exactly when argv holds no option (bar one `--`) and at most one plain argument, which is then the device path |
| `Report.Selected` | dvdnav.c:160-166 | the selected slots are exactly those below the bound that pass the test, in increasing order |
| `Report.GatherSelected` | dvdnav.c:134-168 | the lines a loop appends are one per selected index, in index order |
| `Report.TitleLineOf` | dvdnav.c:141-146 | a TITLE line carries its title number, the converted duration as `secs.ms` (ms < 1000) and as `hh:mm:ss.ms` (fields in range, hours unreduced, reassembling the value), and one `secs.ms` stamp per converted chapter offset |
| `Report.TitleLinesStep` | dvdnav.c:140-156 | one more title adds its TITLE line exactly when it has chapters and offsets |
| `Report.StepChapter` | dvdnav.c:147-150 | a strictly greater offset moves the maximum to the current title; an equal or smaller one changes nothing |
| `Report.IsLongestUnique` | dvdnav.c:147-150 | the longest-title property determines the title and the maximum |
| `Report.ReachedIsBounded` | dvdnav.c:147-150 | an offset some chapter reaches is at most every bound on all offsets, and not every offset of that title is below it |
| `Report.NoOffsetNoLongest` | dvdnav.c:121-122 | when no offset exceeds 0 the longest title stays 0 |
| `Report.LongestIgnoresDurations` | dvdnav.c:144-151 | titles with the same chapter offsets have the same longest title whatever their durations |
| `Report.ScanTitles` | dvdnav.c:134-157 | the longest title is the lowest-numbered usable title holding the strictly greatest converted chapter offset (0 when none exceeds 0), and one TITLE line is produced per usable title, in order |
| `Report.LangBytes` | dvdnav.c:165 | the language is printed high byte then low byte, and the two bytes give back the code |
| `Report.ScanSubtitles` | dvdnav.c:160-168 | one SUB line per slot among the 32 whose stream is not 0xff and whose language is not 0xffff, in slot order |
| `DvdnavMain.DevicePath` | dvdnav.c:106-108 | the device opened is the given path, or `/dev/disk1` when none was given |
| `DvdnavMain.Run` | dvdnav.c:98-177 | exit code in 0..3: `-result` for a parse result at most 0 with no disc access, 1 on open failure, else 0 exactly when the read-ahead and title-count calls succeeded and 2 otherwise; the close result never matters; the played title is the longest one and the report is its TITLE and SUB lines |

## Left out

- libdvdnav itself: every call is an input (`Disc`); the return values of `dvdnav_title_play` and `dvdnav_stop` are ignored by the code and not modelled.
- Output bytes: the `fprintf` field widths, everything written to stderr (the progress line and the error messages), `dvdnav_err_to_string`, and the usage banner with its build date and time; lines are modelled by their content.
- `dvdnav_get_source`, which prints a fixed text for `-s`.
- `free(times)` and the memory ownership of the chapter array.
- The `i_argv` pointer passed to `parse_option`, which this handler never changes.
- Arguments are C strings and cannot contain NUL; the model reads an argument as its characters, which is the same on every such string.
- A negative title count from `dvdnav_get_number_of_titles` runs the title loop zero times, the same as an empty title table in the model.
- Title numbers are `nat`: an `int32_t` title count cannot make the `uint32_t` longest title overflow.
- `dvdnav_spu_stream_to_lang` is asked only for slots whose stream is not 0xff; as a pure input function, when it is asked does not show in the model.
- Ticks.TicksToMsExact: holds only for tick counts up to 184467440737095516, because past it `d * 100` wraps in uint64_t (see `Ticks.TicksToMsWrapsPastBound`).
- Ticks.TicksToMsMonotone: holds only up to the same bound, for the same reason.
