# Nintendo DS catalog generator, modelled in Dafny

`dbgen/list_nds_files.py` walks the CDN folder that holds the Nintendo DS ROM images
(`/var/www/ghosteshop/cdn/Nintendo DS/`). It builds one catalog record for every file whose name
ends in `.nds`. Each record holds:

- the file name;
- the game title: the text before the first `(`, stripped;
- the region: the grandparent directory of the file;
- the size: bytes shown in MB with two decimals;
- a download URL: the base URL followed by the percent-quoted path relative to the ROM root.

A summary then counts the records and shows the ROMs' total size in an adaptive unit (B, KB, MB,
GB or TB).

This project models that core on pure values:

| module | file | models |
|---|---|---|
| `Results` | `results.dfy` | Python's `IndexError` and `OverflowError` as a `Result`, and list subscripts with negative indices |
| `Text` | `text.dfy` | `str.strip()` with Python's white-space set, `split(sep)`, `split('(', 1)[0]`, `sep.join`, `str(n)` |
| `Names` | `names.dfy` | `parse_file_name` |
| `Paths` | `paths.dfy` | `get_region_from_path` as written, and the corrected lookup; `os.path.join`; `os.path.relpath` against `BASE_DIR` |
| `Sizes` | `sizes.dfy` | `convert_size` and the display of `get_file_size`, on integers, with readers that parse the texts back |
| `Quoting` | `quoting.dfy` | UTF-8 encoding and `urllib.parse.quote(..., safe='/')` (sections 2.1 and 2.3 of RFC 3986), with a percent-decoder as its inverse |
| `Catalog` | `catalog.dfy` | the record of one ROM, and `list_nds_files` over a given walk |

The walk is an input. It is a sequence of `WalkEntry(root, name, size)` values in the order
`os.walk` yields them, and `size` stands in for `os.path.getsize`. Every ROM the walk reports is
required to lie below `BASE_DIR` (`AllAdmissible`). Its path is also required to be spelled without
`.`/`..` components or doubled separators, so that `os.path.relpath` is a plain suffix.

Numbers are kept as integers: a displayed value is a count of hundredths. Python's `round(x, 2)`
and `:.2f` round the exact value of a double half-to-even. For byte counts below 2^53 the
quotients by powers of 1024 are exact doubles, so `RoundHalfEven` of the integer quotient gives
the same digits. The float text of `convert_size` (`FloatText`) is Python's `repr` of the rounded
value: at least one decimal, and no trailing zero.

Some consequences of the code that a reader may not expect:

- A record keeps no raw byte count. The raw count only feeds the running total.
- The region comes from the absolute path. A ROM stored directly in a region folder is filed
  under `"Nintendo DS"`, the root's own last directory (`Paths.RegionOfRomInRegionFolder`).
- A path of exactly two components makes the region lookup raise (see Findings).
- The script builds no icon, box-art or forwarder URLs: each record has one download URL.

## Model

| member | source | states |
|---|---|---|
| Results.PyIndex | dbgen/list_nds_files.py:28 | a Python subscript: it succeeds exactly for -len <= i < len, a negative index counting from the end, and raises `IndexError` otherwise (also used for `size_name[i]` at line 41) |
| Text.IsSpace | dbgen/list_nds_files.py:21 | the characters `str.isspace()` accepts, which `strip()` removes: the ASCII controls 0x09-0x0D and 0x1C-0x1F, space, and the Unicode white space from U+0085 to U+3000 |
| Text.Strip | dbgen/list_nds_files.py:21 | the stripped title has no white space at either end and sits inside the text with only white space around it |
| Text.StripUnique | dbgen/list_nds_files.py:21 | any trimmed text padded only by white space inside s is the result of `strip()` on s, so the contract above determines `strip()` |
| Text.StripTrimmed | dbgen/list_nds_files.py:21 | stripping text that has no outer white space leaves it unchanged |
| Text.BeforeFirst | dbgen/list_nds_files.py:21 | `split('(', 1)[0]` is a prefix free of `(`, followed in the name by a `(` whenever it is shorter than the name |
| Text.BeforeFirstUnique | dbgen/list_nds_files.py:21 | that prefix is the only one free of `(` that ends at a `(` or at the end of the name |
| Text.EndsWith | dbgen/list_nds_files.py:52 | `str.endswith`: the suffix is no longer than the text and equals its tail |
| Text.Split | dbgen/list_nds_files.py:26 | `split(os.sep)` always yields at least one part |
| Text.SplitPartsFree | dbgen/list_nds_files.py:26 | no part of a split holds the separator |
| Text.SplitCount | dbgen/list_nds_files.py:26-27 | there is exactly one more part than there are separators in the path |
| Text.JoinSplit | dbgen/list_nds_files.py:26 | joining the parts with the separator gives back the path |
| Text.SplitJoin | dbgen/list_nds_files.py:26 | splitting a join of separator-free parts gives back the parts |
| Text.SplitAppend | dbgen/list_nds_files.py:26 | a separator splits a path into the parts before it followed by the parts after it |
| Text.NatToString | dbgen/list_nds_files.py:41 | the whole part of a printed number is a run of decimal digits with no leading zero, spelling the number |
| Names.ParseFileName | dbgen/list_nds_files.py:19-23 | the title has no `(`, no outer white space, and is no longer than the file name |
| Names.TitleBeforeFirstParen | dbgen/list_nds_files.py:21 | the title is the one trimmed text padded by white space in front of the first `(`, or in the whole name when there is none |
| Names.TitleWithoutParen | dbgen/list_nds_files.py:21 | a name without `(` has the whole stripped name as its title |
| Names.ParseFileNameIdempotent | dbgen/list_nds_files.py:19-23 | parsing a title again leaves it unchanged |
| Names.ParseFileNameExample | dbgen/list_nds_files.py:19-23 | `"SuperGame (Europe).nds"` has the title `"SuperGame"` |
| Names.ParseFileNameEmptyTitle | dbgen/list_nds_files.py:21 | `" (Japan).nds"`, which starts with its tag, has the empty title |
| Paths.RegionFromPath | dbgen/list_nds_files.py:25-32 | as written: a path without a separator gives `"Unknown"`; a successful lookup returns a single component |
| Paths.RegionFromPathRaises | dbgen/list_nds_files.py:26-28 | the as-written lookup raises `IndexError` exactly when the path holds one separator |
| Paths.TwoComponentPathRaises | dbgen/list_nds_files.py:27-28 | `"Europe/game.nds"` raises under the as-written lookup, while the corrected lookup gives `"Unknown"` |
| Paths.Region | dbgen/list_nds_files.py:25-32 | the corrected lookup returns a single component, and agrees with the as-written lookup wherever that one succeeds |
| Paths.RegionOfShallowPath | dbgen/list_nds_files.py:27-32 | a path with fewer than two separators has region `"Unknown"` |
| Paths.RegionFromPathIsGrandparent | dbgen/list_nds_files.py:26-30 | for a path of three or more separator-free components, the as-written lookup returns the third from the end |
| Paths.RegionIsGrandparent | dbgen/list_nds_files.py:26-30 | the corrected lookup returns the same grandparent directory |
| Paths.GrandparentIsDirectory | dbgen/list_nds_files.py:26-28 | in `dir/last/region/file` the lookup returns `last`, whatever `dir` is |
| Paths.RegionOfRomInRegionFolder | dbgen/list_nds_files.py:25-30 | a ROM placed directly in a region folder below the ROM root is filed under `"Nintendo DS"`, the root's own last directory |
| Paths.JoinPath | dbgen/list_nds_files.py:53 | `os.path.join` ends with the file name. An absolute name replaces the directory. Otherwise the result starts with the directory, has a separator just before the name, and adds a separator only when the directory is non-empty and does not already end in one |
| Paths.JoinPathBaseName | dbgen/list_nds_files.py:53 | the last component of a joined path is the file name |
| Paths.RelPath | dbgen/list_nds_files.py:62 | `os.path.relpath` against `BASE_DIR` is the non-empty relative rest of the path: `BASE_DIR` followed by it is the path, and it does not start with a separator |
| Paths.BaseDirComponents | dbgen/list_nds_files.py:11 | `BASE_DIR` ends in a separator and its body holds at least two components |
| Paths.RegionUnderBaseDefined | dbgen/list_nds_files.py:25-32 | for every path below `BASE_DIR` the as-written lookup succeeds and agrees with the corrected one |
| Paths.RegionUnderBase | dbgen/list_nds_files.py:25-30 | with three or more components below `BASE_DIR`, the region is the third of them from the end |
| Paths.RegionOfRomLayout | dbgen/list_nds_files.py:25-30 | a ROM stored as `<region>/<folder>/<file>` below `BASE_DIR` is below it, gets that region, and has that relative path |
| Sizes.Pow1024Monotonic | dbgen/list_nds_files.py:39 | powers of 1024 grow with the exponent |
| Sizes.UnitIndex | dbgen/list_nds_files.py:38 | the unit exponent brackets the byte count: 1024^i <= b < 1024^(i+1) |
| Sizes.UnitIndexUnique | dbgen/list_nds_files.py:38 | no other exponent brackets b, so the exponent is the integer floor of the logarithm |
| Sizes.ScaledHundredths | dbgen/list_nds_files.py:39-40 | `round(size_bytes / p, 2)` in hundredths: within half a hundredth of b / 1024^i |
| Sizes.FloatText | dbgen/list_nds_files.py:41 | the float repr of h / 100: digits spelling h / 100 with no leading zero, a point, then one decimal when the tenths say it all (`"1.0"`, `"1.5"`) and otherwise two decimals ending in a non-zero digit, spelling h % 100 |
| Sizes.FixedText | dbgen/list_nds_files.py:15-17 | the `:.2f` text of h / 100: digits spelling h / 100 with no leading zero, a point, and exactly two decimals spelling h % 100 |
| Sizes.RoundHalfEven | dbgen/list_nds_files.py:40 | the result is within half a step of n/d, and an exact tie goes to the even neighbour |
| Sizes.ConvertSize | dbgen/list_nds_files.py:34-43 | zero shows as `"0 B"`; the call fails exactly when the count reaches 1024^5, which has no unit name. It raises `OverflowError` exactly from 2^1024 - 2^970 on, where the count no longer converts to a double, and `IndexError` below that |
| Sizes.ScaledHundredthsBounds | dbgen/list_nds_files.py:38-40 | the rounded value in its unit lies between 1.00 and 1024.00 |
| Sizes.FileSizeDisplay | dbgen/list_nds_files.py:15-17 | the size in MB with two decimals; what it reads back as is stated by `Sizes.FileSizeDisplayRoundTrip` and its layout by `Sizes.FileSizeDisplayShape` |
| Sizes.GetFileSize | dbgen/list_nds_files.py:13-17 | the first result is the byte count itself; the display ends in `" MB"` |
| Sizes.ParseDecimalOf | dbgen/list_nds_files.py:41 | a whole part, a point and one or two decimals read back as their value in hundredths |
| Sizes.FloatTextRoundTrip | dbgen/list_nds_files.py:40-41 | the printed rounded value reads back as the same number of hundredths |
| Sizes.FloatTextWholeRoundTrip | dbgen/list_nds_files.py:40-41 | a whole number of units, printed with its single ".0" decimal, reads back unchanged |
| Sizes.FloatTextTenthsRoundTrip | dbgen/list_nds_files.py:40-41 | a value with one significant decimal, printed without a trailing zero, reads back unchanged |
| Sizes.FixedTextRoundTrip | dbgen/list_nds_files.py:17 | the two-decimal display reads back as the same number of hundredths |
| Sizes.ConvertSizeRoundTrip | dbgen/list_nds_files.py:34-43 | below 1024^5, reading the total back gives a unit that brackets the byte count and a value within half a hundredth of a unit of it |
| Sizes.FileSizeDisplayRoundTrip | dbgen/list_nds_files.py:15-17 | reading a file's size back gives unit MB and a value within half a hundredth of a megabyte of its bytes / 2^20 |
| Sizes.FileSizeDisplayShape | dbgen/list_nds_files.py:15-17 | the display is a run of digits, a point, exactly two decimal digits and `" MB"`, whatever the magnitude |
| Sizes.FileSizeDisplayExample | dbgen/list_nds_files.py:15-17 | 8 MiB shows as `"8.00 MB"` |
| Sizes.ConvertSizeExampleKilobytes | dbgen/list_nds_files.py:37-41 | 1536 bytes shows as `"1.5 KB"` |
| Sizes.ConvertSizeExampleBytes | dbgen/list_nds_files.py:37-41 | 1023 bytes shows as `"1023.0 B"` |
| Quoting.EncodeChar | dbgen/list_nds_files.py:63 | a character encodes to one to four UTF-8 bytes; ASCII is one byte equal to its code, and the later bytes are continuation bytes |
| Quoting.DecodeEncodedChar | dbgen/list_nds_files.py:63 | the encoding of a character decodes back to it, whatever follows |
| Quoting.Utf8 | dbgen/list_nds_files.py:63 | the UTF-8 bytes `quote` encodes a text to, at least one per character; `Quoting.Utf8RoundTrip` decodes them back |
| Quoting.Utf8RoundTrip | dbgen/list_nds_files.py:63 | decoding the UTF-8 encoding of a path gives the path back |
| Quoting.Quote | dbgen/list_nds_files.py:63 | quoted text holds only unreserved characters, `/` and `%XX` triplets, and is one to three times as long as the bytes |
| Quoting.QuoteRoundTrip | dbgen/list_nds_files.py:63 | percent-decoding the quoted bytes gives back the bytes |
| Quoting.QuoteInjective | dbgen/list_nds_files.py:63 | different byte strings never quote to the same text, so two ROMs never share a URL |
| Quoting.QuoteSafeText | dbgen/list_nds_files.py:63 | text made only of unreserved characters and `/` is left unchanged |
| Quoting.QuoteSingle | dbgen/list_nds_files.py:63 | a single byte quotes to itself when safe and to its `%XX` escape otherwise |
| Quoting.QuoteAppend | dbgen/list_nds_files.py:63 | quoting works byte by byte: the quote of two byte strings one after the other is the two quotes one after the other |
| Quoting.Utf8Append | dbgen/list_nds_files.py:63 | encoding works character by character: the encoding of two texts one after the other is the two encodings |
| Quoting.QuoteKeepsSeparator | dbgen/list_nds_files.py:63 | `/` is kept: the quote of `a/b` is the quote of `a`, then `/`, then the quote of `b` |
| Quoting.QuoteThreeComponents | dbgen/list_nds_files.py:63 | a path of three components quotes component by component, with both separators kept |
| Quoting.QuoteExample | dbgen/list_nds_files.py:63 | a space and `(` quote to `"%20%28"` |
| Catalog.FileUrl | dbgen/list_nds_files.py:62-63 | the URL starts with the base URL and the rest is percent-encoded text that decodes to the UTF-8 bytes of the relative path |
| Catalog.FileUrlKeepsSeparators | dbgen/list_nds_files.py:62-63 | the URL of `dir/name` is the URL of `dir`, then `/`, then the quoted name |
| Catalog.FileUrlDecodes | dbgen/list_nds_files.py:62-63 | decoding the rest of the URL as UTF-8 gives the relative path back |
| Catalog.MakeRecord | dbgen/list_nds_files.py:53-72 | the dictionary appended for one ROM; its fields are stated by `Catalog.MakeRecordFields` |
| Catalog.MakeRecordFields | dbgen/list_nds_files.py:53-72 | the fields of a record:<br>- the file name is kept;<br>- the title is `parse_file_name` of the file name, with no `(` and no outer white space;<br>- the region is one component, and it is the value of the as-written lookup;<br>- the size is the megabyte display of the entry's byte count;<br>- the URL decodes to the relative path |
| Catalog.RecordSizeReadsBack | dbgen/list_nds_files.py:58-70 | the size in a record reads back in MB within half a hundredth of the entry's bytes / 2^20 |
| Catalog.RecordOfRomLayout | dbgen/list_nds_files.py:52-72 | a ROM at `<region>/<folder>/<file>` below the root is a ROM, gets that region, the title and size display of that file, and the URL base + quote of that relative path, which is the quote of each component with `/` between them |
| Catalog.IsRom | dbgen/list_nds_files.py:52 | a walk entry is a ROM when its name ends in `.nds` (`Text.EndsWith`) |
| Catalog.RomEntries | dbgen/list_nds_files.py:51-52 | the files the `.endswith(".nds")` filter keeps, in walk order, never more than the walk; `Catalog.RomEntriesMembers` states which they are |
| Catalog.RomBytes | dbgen/list_nds_files.py:58-59 | the final `total_size_bytes`: the sum of the ROMs' sizes; how it grows is stated by `Catalog.RomBytesStep` and `Catalog.RomBytesAppend` |
| Catalog.RomEntriesMembers | dbgen/list_nds_files.py:51-52 | the ROM entries are walk entries ending in `.nds`, and every walk entry ending in `.nds` is one of them |
| Catalog.Records | dbgen/list_nds_files.py:49-72 | there is one record per ROM |
| Catalog.RecordOfRom | dbgen/list_nds_files.py:51-72 | the i-th record is the record of the i-th ROM, in walk order |
| Catalog.RecordsStep | dbgen/list_nds_files.py:51-72 | one more walk entry appends a record exactly when its name ends in `.nds` |
| Catalog.RomBytesLast | dbgen/list_nds_files.py:52-59 | the last entry adds its size to the total and one to the count exactly when it is a ROM |
| Catalog.RomBytesStep | dbgen/list_nds_files.py:52-59 | one more walk entry adds its size to the running total exactly when it is a ROM |
| Catalog.RomBytesAppend | dbgen/list_nds_files.py:47-59 | totals and counts of two walks one after the other add up |
| Catalog.RomBytesRemove | dbgen/list_nds_files.py:47-59 | taking one entry out of a walk takes its ROM size off the total |
| Catalog.RomBytesPermutation | dbgen/list_nds_files.py:49-59 | `total_files` and the byte total are the same for every order in which `os.walk` may report the same files |
| Catalog.RecordStep | dbgen/list_nds_files.py:53-72 | the loop body for one ROM: it returns the file's byte count and the record `Catalog.MakeRecord` describes |
| Catalog.WalkStep | dbgen/list_nds_files.py:51-72 | one turn of the loop keeps `files_info` equal to the records, and `total_size_bytes` equal to the ROM total, of the entries seen so far |
| Catalog.TakeRom | dbgen/list_nds_files.py:52-72 | the turn for a ROM: appending its record and adding its size keeps both loop facts |
| Catalog.CollectRoms | dbgen/list_nds_files.py:46-72 | after the loop, `files_info` holds the records of all ROMs in walk order and `total_size_bytes` is their byte total |
| Catalog.ListNdsFiles | dbgen/list_nds_files.py:45-83 | the summary:<br>- it succeeds exactly when the ROM total is below 1024^5, and otherwise raises what `convert_size` raises;<br>- it lists the records of the ROMs in walk order;<br>- `total_files` is the number of ROMs;<br>- `total_size` is the conversion of their byte total;<br>- an empty walk gives `0`, `"0 B"` and no files |

## Left out

- The directory walk, `os.path.getsize`, the logging calls, `json.dump` and `main` are I/O. The
  walk and the file sizes are inputs.
- The catalog works on the path relative to `BASE_DIR`, while the walk starts at the `base_dir`
  argument. The model requires every ROM to lie below `BASE_DIR`, spelled in normal form.
  - Paths with `..`, `.` or doubled separators are not modelled: there, `os.path.relpath` would
    normalise.
  - Paths outside `BASE_DIR` are not modelled: `os.path.relpath` would produce `../` components.
- `relative_path.replace(os.sep, '/')` is left out: on the POSIX host the separator already is `/`.
- Sizes.UnitIndex: the exponent is computed exactly, as the floor of the base-1024 logarithm.
  The source uses `math.log` in floating point, which may be off by one at or near a power of
  1024, on either side.
- Sizes.ConvertSize: the float arithmetic of `size_bytes / p` and `round` is modelled exactly
  only below 2^53 bytes, which covers every count that gets a unit name. For larger counts the
  model keeps only the error raised: `IndexError`, or `OverflowError` from 2^1024 - 2^970 bytes
  on, where `size_bytes / p` cannot convert the count to a double, or `math.pow(1024, i)` is out
  of range first.
- Sizes.FileSizeDisplay: the `:.2f` display is modelled exactly only below 2^53 bytes, for the
  same reason.
- Quoting.EncodeChar: file names that hold lone surrogates are not modelled.
  - In Python they cannot be encoded, and `quote` raises `UnicodeEncodeError`.
  - Dafny's `char` holds only scalar values, so such names cannot arise in the model.
- Catalog.ListNdsFiles: the summary is the record of the Python dictionary. Its JSON text is
  not modelled.

## Findings

| source | as written | input that shows it | evidently intended | confidence | as-written member | corrected member |
|---|---|---|---|---|---|---|
| dbgen/list_nds_files.py:27-28 | the guard `len(parts) > 1` admits two-part paths, and `parts[-3]` then raises `IndexError` | `get_region_from_path("Europe/game.nds")` | `"Unknown"` for any path with fewer than three components | not executed; `list_nds_files` only passes paths below `BASE_DIR`, which always have enough components (`Paths.RegionUnderBaseDefined`) | Paths.RegionFromPath, with Paths.TwoComponentPathRaises | Paths.Region, with Paths.RegionIsGrandparent and Paths.RegionOfShallowPath |
