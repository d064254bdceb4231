# httpshare, modelled in Dafny

`httpshare.py` is a small HTTP file server. It is driven from a console.
The operator shares files under their base names. The server then serves:

- a directory listing at `/<secret>/`;
- each shared file at `/<secret>/<name>`, with single byte ranges;
- a fixed `robots.txt`.

Every other path is refused.

This project models the decision logic of that server and the data
structures the logic reads:

- **Request handling.** `Handler.process` is modelled as a pure function.
  Its inputs are the request path, the Range header, the secret, a snapshot
  of the share registry and what the file system says about the shared paths.
  Its result is a status, the headers the handler sets and a description of
  the body. The range-copying loop is a method proved against a slice of the
  file.
- **Range parsing.** `parse_range` is modelled together with the
  satisfiability test and the `Content-Range` value. These follow the
  single-range subset of sections 2.1, 4.2 and 4.4 of RFC 7233.
- **The listing.** `make_index` is modelled with its natural sort, its
  percent-encoding (section 2.1 of RFC 3986), its HTML escaping and UTF-8.
- **The registry.** The `shares` dictionary and its two updates,
  `command_add` and `command_del`, form a class. The class keeps the
  dictionary's insertion order beside the map, because the listing is built
  from that order.
- **The request log.** The log kept by `log_message` is a class with a
  bounded list.
- **The address.** The announced address is built by `update_address`'s
  bracketing and by `format_address`.
- **The console.** The command interpreter `execute` is modelled with a fixed
  command table.

Modules:

| module | file | models |
|---|---|---|
| Strings | strings.dfy | ASCII digit runs, `str()`/`int()` on them, `str.strip()`, ASCII `str.lower()`, path segments, `join` |
| Utf8 | utf8.dfy | `str.encode("utf-8")` and decoding with replacement |
| Percent | percent.dfy | `urllib.parse.quote` / `unquote` |
| Html | html.dfy | `html.escape` and its inverse reading |
| Lex | lex.dfy | Python's lexicographic comparison of lists and strings |
| SortKey | sort_key.dfy | the natural-sort key: `re.split('([0-9]+)', name)` and the conversion of its runs |
| NaturalSort | natural_sort.dfy | `natural_sort` as a stable sort by that key |
| Index | index.dfy | `index_template` and `make_index` |
| Ranges | ranges.dfy | `parse_range`, the range decision, `Content-Range`, the range-copying loop |
| Routing | routing.dfy | `Handler.process` and `do_HEAD`/`do_GET` |
| Registry | registry.dfy | `shares`, `command_add`, `command_del` |
| RequestLog | request_log.dfy | `logs` and `Handler.log_message` |
| Address | address.dfy | `update_address` (after the STUN call) and `format_address` |
| Commands | commands.dfy | `aliases` and `execute` |

Where the code and its documentation differ, the model follows the code:

- **Unparseable Range header.** A Range header that does not parse is
  answered with 416 Range Not Satisfiable, because `L is None` fails the
  satisfiability test. It is not ignored in favour of a full response.
- **Name lookup.** The file name is the percent-decoded *last* path segment.
  So `/<secret>/any/dirs/<name>` is answered like `/<secret>/<name>`.
- **Digits.** The server decodes headers as ISO-8859-1. So the `\d` of the
  range pattern and `int()` can only see ASCII digits, and the model uses
  ASCII digits throughout.
- **Long numerals.** `int()` refuses numerals of more than 4300 digits, and
  `parse_range` turns that error into "no range". The model keeps that limit
  (`Ranges.MaxIntDigits`).

## Model

| member | source | states |
|---|---|---|
| Ranges.ParseRangeMatches | httpshare.py:80-94 | After stripping and lower-casing, `bytes=D-` gives (int D, none) and `bytes=D-E` gives (int D, int E). A numeral over 4300 digits makes `int()` fail, and then the result is (None, None). |
| Ranges.ParseRangeSound | httpshare.py:80-94 | Every header `parse_range` accepts matches `bytes=(\d+)-(\d*)$`. The numbers it returns are the values of the two groups. |
| Ranges.ParseRangeNeedsUnit | httpshare.py:80-83 | A header that does not begin with `bytes=` after stripping and lower-casing is refused. |
| Ranges.SuffixRangeRejected | httpshare.py:80-83 | The suffix form `bytes=-N` is refused. |
| Ranges.RangeListRejected | httpshare.py:80-83 | A header with a comma (a list of ranges) is refused. |
| Ranges.ParseRangeAlphabet | httpshare.py:80-83 | An accepted header holds only the letters of "bytes", '=', '-' and digits. |
| Ranges.ParseRangeHeader | httpshare.py:80-94 | `parse_range` reads back the header `bytes=<first>-[<last>]` that a client writes for any numbers `int()` accepts. |
| Ranges.CheckRangeIff | httpshare.py:174-180 | A range is satisfiable iff it parsed, first < size, and the last byte (size-1 when absent) is below size and not before first. The interval is then exactly (first, last). |
| Ranges.OpenRangeWholeFile | httpshare.py:174-180 | `bytes=0-` selects the whole of any non-empty file. |
| Ranges.ContentRangeInjective | httpshare.py:181-183 | The `Content-Range` value "bytes L-R/size" determines L, R and size. |
| Ranges.SliceBounds | httpshare.py:189-196 | What the range loop writes is never longer than the range. It is exactly `file[L..R+1]` when the file holds those bytes. |
| Ranges.StreamRange | httpshare.py:188-196 | The chunked loop writes exactly the bytes of the range, cut short only where the file ends. The concatenation of its chunks is what it wrote. Each chunk holds 1 to 16384 bytes. |
| Ranges.ChunksFitAll | httpshare.py:191-192 | Every chunk the loop writes holds between 1 and 16384 bytes. |
| Routing.RobotsAlways | httpshare.py:128-136 | `/robots.txt` is answered with 200, `text/plain` and `Content-Length: 28`, whatever the secret, the registry or the Range header. The 28-byte body is the ASCII of the disallow-all text and is sent only for GET. |
| Routing.ClassifyPath | httpshare.py:128-152 | The handler's cases are tested in order: robots, then outside the directory, then the listing, then a file named by the decoded last segment. The lemma states each case as an iff on the path. |
| Routing.ForbiddenIff | httpshare.py:137-139 | A path other than `/robots.txt` gets 403 iff it does not start with `/<secret>/`. |
| Routing.Answer | httpshare.py:128-205 | 403 comes for the paths outside the directory and only for them. Only the listing carries the handler's own `text/html` Content-type. |
| Routing.IndexIff | httpshare.py:140-150 | The listing is served exactly at `/<secret>/`. `names` is `list(shares.keys())`. For GET the body is the UTF-8 encoding of `make_index(names)` and decodes back to it. Its links read back as the shared names in natural-sort order, and each shared name appears exactly once. |
| Routing.FileRequest | httpshare.py:152 | Any other path in the directory asks for the file named by the percent-decoded last segment. |
| Routing.NestedPathQuirk | httpshare.py:152 | `/<secret>/<dirs>/<name>` is answered exactly as `/<secret>/<name>` is. |
| Routing.NotFoundIff | httpshare.py:152-163 | A file request gets 404 iff the name is not shared, the path it maps to is empty or not a regular file, or the file is empty. |
| Routing.FileResponse | httpshare.py:152-205 | A file request never gets 403 and never carries the handler's own `text/html` Content-type. |
| Routing.RangeResponseIff | httpshare.py:174-197 | With a Range header, the response is 206 or 416. It is 206 iff the parsed range is satisfiable, and an unparseable header gets 416. A 206 carries `Content-Range: bytes L-R/size` and `Content-Length: R-L+1`, and for GET a body of that interval. |
| Routing.RangeRequest | httpshare.py:174-175 | A shared, non-empty file requested with a Range header is answered by the range decision on the parsed header. |
| Routing.FullFile | httpshare.py:198-205 | Without a Range header, a shared non-empty file gets 200 with Content-Length, Last-Modified and Accept-Ranges. For GET the body is the whole file. |
| Routing.OpenRangeSameBytes | httpshare.py:174-205 | `Range: bytes=0-` gets 206 where a request without a Range header gets 200. Both carry the same Content-Length. Both send exactly the whole file when the file is as long as its reported size. |
| Routing.HeadLikeGet | httpshare.py:111-121 | HEAD and GET get the same status and headers. HEAD gets no body. |
| Routing.ContentLengthExact | httpshare.py:128-205 | For a 200 or 206 to GET, the Content-Length header equals the number of bytes written, provided each file is as long as its reported size. |
| Routing.Serve | httpshare.py:127-205 | Serving a request gives the routed response and writes its body. A range is copied by the chunked loop and never exceeds its length. |
| Index.MakeIndexLinks | httpshare.py:73-78 | The listing has one item per name, in natural-sort order. Percent-decoding an item's target and unescaping its text both give back its name. The names listed are the names given. |
| Index.TitleAndHeading | httpshare.py:56-78 | The title and the heading of the listing both contain `/<secret>/`. |
| Index.ParseItems | httpshare.py:75-78 | The joined items read back as one link per name, in order. |
| NaturalSort.NaturalSortCorrect | httpshare.py:51-54 | `natural_sort` returns a permutation of its input, ordered by the natural key. Names with equal keys keep their input order (stable). |
| NaturalSort.KeyLessTotal | httpshare.py:51-54 | The key order is total, so any two different keys are ordered. |
| SortKey.SplitConcat | httpshare.py:53 | The pieces of `re.split('([0-9]+)', name)` concatenate back to the name. |
| SortKey.SplitAlternating | httpshare.py:53 | The pieces alternate between text runs and maximal non-empty ASCII digit runs. |
| SortKey.KeyAlternates | httpshare.py:52-53 | For names whose digits are ASCII, every key is text, number, text, ... text. So Python's comparison never sets a number against a string. |
| Percent.UnquoteQuote | httpshare.py:77 | `unquote(quote(name)) == name` for every name. |
| Percent.UnquoteDecodes | httpshare.py:152 | `unquote` decodes each ASCII run separately and keeps the other characters. That equals UTF-8 decoding, with replacement, of all the bytes the string stands for. |
| Percent.UnquoteTruncated | httpshare.py:152 | The escaped first bytes of a cut-short character (`%E2%82`, for example) unquote to a single U+FFFD. |
| Percent.Quote | httpshare.py:77 | The quoted name holds only unreserved characters, '/' and '%'. |
| Html.UnescapeEscape | httpshare.py:77 | Unescaping the escaped name gives it back. |
| Html.Escape | httpshare.py:77 | The escaped name holds no `<`, `>`, `"` or `'`. |
| Utf8.DecodeEncode | httpshare.py:143 | Decoding the UTF-8 encoding of the listing gives the listing. |
| Utf8.DecodeSplit | httpshare.py:152 | When the byte after a cut is not a continuation byte, decoding the whole equals decoding each half separately. |
| Utf8.DecodeTruncated | httpshare.py:152 | A character cut short after 1 to 3 of its bytes decodes as one U+FFFD (a maximal subpart). Decoding then continues with the next byte. |
| Registry.Registry.Add | httpshare.py:261-273 | `command_add` maps each eligible match's base name (a regular file of size > 0) to its absolute path, in match order. A new name goes last in key order. It reports the eligible matches, and the key order stays consistent with the map. |
| Registry.AddLastWins | httpshare.py:264-270 | After `command_add`, a name holds the absolute path of the last eligible match with that base name. A name no eligible match has keeps its old path, or stays absent. |
| Registry.LastMatchForSpec | httpshare.py:264-270 | The match found for a name is eligible and has that base name, and no later match does. When none is found, no match does. |
| Registry.AddKeepsOrder | httpshare.py:264-270 | `command_add` never moves or drops a key. The new keys are exactly the base names of eligible matches. |
| Registry.AcceptedEligible | httpshare.py:265-270 | The reported paths are exactly the eligible matches. |
| Registry.Registry.Del | httpshare.py:275-284 | `command_del` removes exactly the keys the pattern matches, and reports them in key order. Every other key keeps its value and its place. |
| Registry.DelPartition | httpshare.py:279-281 | The removed keys and the kept keys are together the old keys. Every removed key matches the pattern and no kept key does. |
| Registry.DelIdempotent | httpshare.py:279-281 | Deleting again with the same pattern removes nothing and changes nothing. |
| Registry.KeysOnce | httpshare.py:142 | `list(shares.keys())` holds each shared name exactly once. |
| Registry.MatchingMembers | httpshare.py:279 | The removed keys are the keys that match the pattern. |
| RequestLog.Log.Append | httpshare.py:104-109 | After appending and popping from the front while the log is over 100, the log holds the last 100 messages (or all of them), in arrival order. |
| RequestLog.RecentAppend | httpshare.py:106-109 | Appending to the recent part of a history and trimming gives the recent part of the longer history. So forgetting old lines loses nothing the log must keep. |
| RequestLog.RecentBound | httpshare.py:108-109 | The log never holds more than 100 entries, and holds every message while fewer have been logged. |
| RequestLog.RecentSuffix | httpshare.py:106-109 | The log is the newest part of the history, in arrival order. |
| RequestLog.NewestLast | httpshare.py:107 | The message just logged is the last entry. |
| Address.AnnouncedUrl | httpshare.py:31-46 | The announced URL reads back as the host STUN reported (localhost when none), the port and `/<secret>/`. The brackets around an IPv6 literal keep its colons from being read as the port separator. |
| Address.FormatAddressFrame | httpshare.py:42-46 | The announced URL extends the address and ends in `/<secret>/`. |
| Address.PortShown | httpshare.py:42-46 | Two ports give the same URL iff the address ends in '/' or the ports are equal. So the port appears exactly when the address has no trailing '/'. |
| Address.IntRoundTrip | httpshare.py:46 | `int(str(port)) == port` for any integer port. |
| Commands.StopsIff | httpshare.py:337-356 | `execute` returns False exactly for "exit", its alias "q" and a word that names no command. An empty line keeps the console running. |
| Commands.RunsCommand | httpshare.py:345-356 | A word naming a command always calls it with the remaining words and returns True. A wrong argument count is only reported. |
| Commands.AliasesResolve | httpshare.py:325-342 | Every alias names a command or "exit", and none names another alias. |
| Commands.ExitWords | httpshare.py:325-344 | Exactly "exit" and "q" resolve to leaving. |
| Commands.AliasLikeTarget | httpshare.py:341-342 | A line starting with an alias behaves like the same line starting with the command the alias names. |
| Strings.DecimalRoundTrip | httpshare.py:132 | Reading back `str(n)` gives n. |
| Strings.LastSegmentSuffix | httpshare.py:152 | The last segment is a suffix without '/', and is preceded by a '/' unless it is the whole path. |

## Left out

- **Network and console I/O.** The socket server, `serv`, threading and
  the lock are not modelled. Operations are modelled one at a time, in
  sequence.
- **STUN.** `stun.get_ip_info` is a network call. Its external IP becomes
  the parameter of `Address.UpdateAddress`.
- **The file system.** `glob.iglob`, `os.path.isfile`, `getsize`,
  `getmtime`, `abspath`, `open`, `seek` and `read` become parameters:
  - `Routing.FileInfo` records and the `fs` map;
  - `Registry.Match` records;
  - the byte sequence that `Ranges.Read` slices.
- **`fnmatch`.** The pattern of `command_del` is an abstract predicate.
- **Last-Modified.** The `Last-Modified` text is a parameter. `formatdate`
  and `getmtime` are not modelled.
- **Library framing.** The headers that `send_response` and `send_error`
  add themselves are not modelled, and neither is the error page body.
  These are Server and Date, plus the error page's own headers. The error
  page for 403, 404 and 416 is HTML typed `text/html;charset=utf-8`, but the
  model only speaks of the Content-type the handler sets. `Routing.Error` records
  the status only, and for GET it records that a page is written.
- **If-Modified-Since.** The branch is not modelled, and no 304 is ever
  produced:
  - it compares floating-point timestamps;
  - as written it can never succeed, because `email.utils` is not imported
    as a module, so the NameError it raises is swallowed by its bare
    `except`.
- **Exceptions.** The `try`/`except` in `do_HEAD`/`do_GET` and the
  traceback logging are left out.
- **The command bodies.** Only the registry commands are modelled. The
  bodies of `command_pwd`, `cd`, `dir`, `list`, `stun`, `tail` and `help`
  print or change the process's directory, and are left out.
  `command_setaddress` just assigns the address that `Address.FormatAddress`
  takes as a parameter.
- **`command_help`.** Its reflection over `globals()` and
  `inspect.signature` is replaced by the fixed table `Commands.Arity`.
- **Output of the registry commands.** `command_add` and `command_del`
  print the reported names in natural-sort order. The model returns them
  in match order and key order; `NaturalSort.NaturalSortCorrect` covers the
  sorting.
- **Commands.RunsCommand.** A call with the wrong number of arguments raises
  a TypeError that `execute` catches and prints. The model records the
  mismatch in the effect and does not model the exception.
- **Unicode case and digits.** Python's Unicode digit and case rules are
  not modelled:
  - `Strings.Lower` lower-cases ASCII letters only;
  - digits are ASCII digits only.

  This is exact for the Range header, which is decoded as ISO-8859-1 and
  lower-cased before matching.
- **Listing of names with non-ASCII digits.** `re.split('([0-9]+)', ...)`
  splits on ASCII digits, but `isdigit` accepts any Unicode digit.
  - A text piece such as the "²" of "x1²" passes `isdigit`, and then
    `int()` raises ValueError (httpshare.py:52).
  - A name such as "٣" becomes the number 3 in a text position. Sorting it
    next to a name with a text key compares an int with a str and raises
    TypeError.

  In both cases `make_index` raises, and GET or HEAD of `/<secret>/` gets no
  response. The model's key treats such characters as text, so
  `Routing.IndexIff` promises a listing where the program sends nothing.
- **Names that are not Unicode text.** A file name that is not valid UTF-8
  reaches `shares` from `glob` as a string with lone surrogates.
  `urllib.parse.quote` (httpshare.py:77) and `.encode("utf-8")`
  (httpshare.py:143) raise on such a name, so the listing again sends
  nothing. A Dafny `string` holds Unicode scalar values only, so the model
  cannot hold such a name.
- **Percent.Quote.** Its contract states only the alphabet of the result,
  not the exact `quote` output. `Percent.UnquoteQuote` carries the
  round trip.
- **Log message text.** `RequestLog.Log.Append` takes the formatted message
  as given. The client address and `log_date_time_string` are not
  modelled.
