# lightget, modelled in Dafny

lightget is a command-line HTTP downloader and site mirrorer written in C#.
This project models its core and proves properties of the model:

- **URL-to-path mapping** (`UrlToPathMapper`, `MappingRules`,
  `PathMappingRuleConverter`).
  - The mapper turns an absolute URL into a relative Windows path.
  - The path holds the host, a `_<port>` segment, the local path (whole, or
    relative to a base URL), the sanitised query, and a `_` placeholder for
    directory URLs.
  - An explicit file name replaces the last segment.
  - The rule converter reads `full`, `host`, `port`, `root` and `relative`
    from a comma-separated, case-insensitive list.
- **Link extraction** (`LinkExtractor`). This gives the hrefs of an HTML
  document, resolved against the base element or the document URL, that
  have an http, https or ftp scheme.
- **The current download engine** (`Downloader`, for `LightGet.Logic.Downloader`).
  - It issues a HEAD and follows 301/302/307 redirects.
  - It refuses every other status except 200.
  - It plans a resume from the length of the existing file: already
    complete, a ranged GET of the rest, or a full re-download without
    truncation.
  - It copies the body in 1024-byte reads, reporting progress after each.
  - It retries an attempt, with the same HEAD response, whenever the
    stream throws.
- **The legacy download engine** (`LegacyDownloader`, for `LightGet.Downloader`).
  - The HEAD follows redirects itself.
  - The file name comes from Content-Disposition or from the last URI
    segment.
  - The read loop is bounded by the response's ContentLength.
  - A remaining-time estimate is formatted, and is written only when its
    text changes.
  - The retry loop works the same way.
- **The command-line parser** (`CommandLineParser`).
  - `Analyze` sorts arguments into `--name[=value]`, `-name value` and
    positional ones.
  - `Parse` binds them to properties named by the PascalCase form of the
    kebab-case name. A bool property given no value is set to true.

Supporting modules:

- `Wrappers`: Option and Result.
- `Text`: the .NET string operations used.
- `Uris`: the parts of System.Uri that are read, and the reference
  resolution of section 5.2.2 of RFC 3986 without dot-segment removal.
- `Http`: HEAD and GET replies and stream reads.

Network and disk are parameters. Every HEAD and GET is answered from a
finite script of replies. A response stream is the list of what its
successive reads find available, together with the stopwatch reading after
each read. The destination file is represented by its length. Each
operation that loops or changes state in the source is a method with a loop
and invariants, and its `ensures` ties it to a specification function. The
remaining lemmas state properties of those functions.

## Behaviour worth noting

- Both downloaders retry an interrupted attempt with the HEAD response they
  already hold. They do not issue a new HEAD request
  (`LightGet/Logic/Downloader.cs:36-43`, `LightGet/Downloader.cs:20-29`).
  `Downloader.RetryIssuesNoHead` and `LegacyDownloader.RetryIssuesNoHead`
  state this.
- `GetResponse` (`LightGet/Logic/Downloader.cs:21`) throws for HEAD
  statuses of 400 and above, before the status check at lines 32-34. Such
  a status therefore ends as an HTTP error (`HttpError`), not as an
  unsupported response.
- A redirect target is read with `new Uri(target)`
  (`LightGet/Logic/Downloader.cs:24-30`). This rejects a relative Location,
  so the model fails with `InvalidLocation`.
- Nothing in `LightGet/Logic/Downloader.cs:18-44` bounds a redirect chain.
  Here the chain is bounded only by the length of the HEAD script.

## Model

| member | source | states |
|---|---|---|
| PathMappingRuleConverter.RuleFromWords | LightGet/Logic/PathMappingRuleConverter.cs:26-37 | fails exactly when a word outside full/host/port/root/relative is present, naming every unknown word and no other; on success "full" gives the default rule, each flag is set exactly when its word or "full" is present, and "root" also sets the path flag |
| PathMappingRuleConverter.Parse | LightGet/Logic/PathMappingRuleConverter.cs:21-38 | the method that removes each known word in turn returns what RuleFor gives: the default rule for blank input, else the rule of the case-folded word set |
| PathMappingRuleConverter.BlankGivesDefault | LightGet/Logic/PathMappingRuleConverter.cs:22-24 | null or white-space input, white space as Char.IsWhiteSpace has it, gives `new PathMappingRule()`, all four flags set |
| PathMappingRuleConverter.UnicodeSpaceGivesDefault | LightGet/Logic/PathMappingRuleConverter.cs:22-24 | an ideographic space, or a space, an en quad and a paragraph separator, give the default rule |
| PathMappingRuleConverter.FullRule | LightGet.Tests/Of.Logic/PathMappingRuleConverterTests.cs:23 | "full" in any letter case sets every flag |
| PathMappingRuleConverter.HostPortRule | LightGet.Tests/Of.Logic/PathMappingRuleConverterTests.cs:24 | "host,port" sets host and port and neither path flag |
| PathMappingRuleConverter.RootRule | LightGet.Tests/Of.Logic/PathMappingRuleConverterTests.cs:25 | "root" sets parent path and path, not host or port |
| PathMappingRuleConverter.RelativeRule | LightGet.Tests/Of.Logic/PathMappingRuleConverterTests.cs:26 | "relative" sets only the path flag |
| PathMappingRuleConverter.SpaceAfterCommaIsRejected | LightGet/Logic/PathMappingRuleConverter.cs:26-35 | tokens are not trimmed: "host, port" fails naming " port" |
| PathMappingRuleConverter.CaseInsensitive | LightGet/Logic/PathMappingRuleConverter.cs:26 | lower-casing the input never changes the result |
| PathMappingRuleConverter.WordsAppend | LightGet/Logic/PathMappingRuleConverter.cs:26 | the word set of two lists joined by a comma is the union of their word sets |
| PathMappingRuleConverter.RepeatedTokensAreHarmless | LightGet/Logic/PathMappingRuleConverter.cs:26 | appending tokens already in the list gives the same result, since tokens form a set |
| PathMappingRuleConverter.FullAmongKnownWords | LightGet/Logic/PathMappingRuleConverter.cs:27-31 | any list whose words are all known and include "full", in any position and ASCII casing, gives the default rule |
| PathMappingRuleConverter.FullAnywhere | LightGet/Logic/PathMappingRuleConverter.cs:27-31 | "full" between two lists of known words gives the default rule |
| PathMappingRuleConverter.FullAtEitherEnd | LightGet/Logic/PathMappingRuleConverter.cs:27-31 | "full" first or last, as in "full,host" and "host,full", gives the default rule |
| Text.Split | LightGet/Logic/PathMappingRuleConverter.cs:26 | at least one piece, and no piece holds the separator |
| Text.SplitJoin | LightGet/Logic/PathMappingRuleConverter.cs:26 | joining the pieces with the separator restores the input |
| Text.SplitAppend | LightGet/Logic/PathMappingRuleConverter.cs:26 | splitting `a,b` gives the pieces of `a` then those of `b` |
| Text.SplitLower | LightGet/Logic/PathMappingRuleConverter.cs:26 | case folding commutes with splitting at a non-letter |
| Text.TrimStartRemovesLeading | LightGet/ConsoleTools/CommandLineParser.cs:66 | TrimStart drops a prefix made only of the character, and what remains does not start with it |
| Text.AfterLast | LightGet/Downloader.cs:116 | the index after the last occurrence, with no occurrence after it; 0 when there is none |
| Text.DecimalRoundTrip | LightGet/Downloader.cs:104 | decimal rendering of a number reads back as the number |
| Text.NatToStringInjective | LightGet/Downloader.cs:104 | different numbers render as different texts |
| UrlToPathMapper.NewMapper | LightGet/Logic/UrlToPathMapper.cs:18-24 | the constructor fails exactly when the rule maps relative paths (path without parent path) and no base URL is given |
| UrlToPathMapper.SanitizeReplacesOnlyMatches | LightGet/Logic/UrlToPathMapper.cs:14-16 | same length, matched characters become `_`, others kept, and no separator or invalid path character remains |
| UrlToPathMapper.RemoveStart | LightGet/Logic/UrlToPathMapper.cs:41 | drops the prefix exactly when the string starts with it |
| UrlToPathMapper.GetDirectoryName | LightGet/Logic/UrlToPathMapper.cs:54 | fails on "" and on invalid characters; gives null (NoDirectory) exactly when the path is only its root; otherwise the prefix before the last separator at or after the root, or the root itself when no separator follows it |
| UrlToPathMapper.Combine | LightGet/Logic/UrlToPathMapper.cs:54 | fails exactly on invalid characters; joins with one separator unless the second part is rooted or either part is empty |
| UrlToPathMapper.DropLeadingSeparator | LightGet/Logic/UrlToPathMapper.cs:47-48 | removes exactly one leading separator, if any |
| UrlToPathMapper.GetPath | LightGet/Logic/UrlToPathMapper.cs:26-79 | the step-by-step building of the path gives MappedPath, on which the lemmas below hold |
| UrlToPathMapper.AppendNamePart | LightGet/Logic/UrlToPathMapper.cs:57-76 | the tail without a file name is the body followed by the query part or the placeholder |
| UrlToPathMapper.WithoutFileName | LightGet/Logic/UrlToPathMapper.cs:57-78 | without a file name the path is the body followed by its name suffix |
| UrlToPathMapper.RelativeUrlIsRejected | LightGet/Logic/UrlToPathMapper.cs:27-28 | a relative URL fails before anything else |
| UrlToPathMapper.PortSegmentFollowsHost | LightGet/Logic/UrlToPathMapper.cs:31-35 | the path equals that of the same URL on its default port with `_<port>` inserted after the host when the port is not default and ports are included |
| UrlToPathMapper.OneLeadingSeparatorRemoved | LightGet/Logic/UrlToPathMapper.cs:37-48 | without host and port, exactly one leading separator of the local path is dropped |
| UrlToPathMapper.QueryBecomesLastSegment | LightGet/Logic/UrlToPathMapper.cs:60-67 | a query ends the path as `_` plus the sanitised query, which holds no separator |
| UrlToPathMapper.FileNameIgnoresQuery | LightGet/Logic/UrlToPathMapper.cs:50-55 | with a file name the query plays no part |
| UrlToPathMapper.FileNameReplacesLastSegment | LightGet/Logic/UrlToPathMapper.cs:51-55 | with a file name the last segment of the body is replaced by it, whenever the separator before that segment lies at or after the root |
| UrlToPathMapper.DirectoryOfLastSegment | LightGet/Logic/UrlToPathMapper.cs:54 | the directory of `<directory>\<last>` is `<directory>` when the root ends within `<directory>` |
| UrlToPathMapper.FileNameUnderRoot | LightGet/Logic/UrlToPathMapper.cs:51-55 | with a file name, a segment right below `\` or `c:\` is replaced and the root is kept |
| UrlToPathMapper.BareRootHasNoDirectory | LightGet/Logic/UrlToPathMapper.cs:51-55 | with a file name, a body that is only `\`, `c:` or `c:\` fails, since Path.Combine(null, name) throws |
| UrlToPathMapper.DoubleSlashRow | LightGet/Logic/UrlToPathMapper.cs:37-55 | with host and port left out, `http://x.com//a` and file name f give `\f` |
| UrlToPathMapper.DriveRow | LightGet/Logic/UrlToPathMapper.cs:37-55 | with host and port left out, `http://x.com/c:/x` and file name f give `c:\f` |
| UrlToPathMapper.BareRootRow | LightGet/Logic/UrlToPathMapper.cs:37-55 | with host and port left out, `http://x.com//` and a file name fail with NoDirectory |
| UrlToPathMapper.DirectoryGetsPlaceholder | LightGet/Logic/UrlToPathMapper.cs:69-76 | a directory URL without query ends in `_`, after a separator unless the body is empty or ends in one |
| UrlToPathMapper.RootUrlMapsToHostPlaceholder | LightGet/Logic/UrlToPathMapper.cs:31-76 | the root URL under the default rule maps to `<host>\_` |
| UrlToPathMapper.RelativeBaseMapsToPlaceholder | LightGet/Logic/UrlToPathMapper.cs:39-42 | under the relative rule the base URL itself maps to `_` |
| UrlToPathMapper.RelativeBodyBelowBase | LightGet/Logic/UrlToPathMapper.cs:37-44 | under the relative rule the body of a URL below the base is its path below the base |
| UrlToPathMapper.RelativeFileBelowBase | LightGet/Logic/UrlToPathMapper.cs:37-78 | a file URL below the base maps to its path below the base |
| UrlToPathMapper.RelativeDirectoryBelowBase | LightGet/Logic/UrlToPathMapper.cs:37-78 | a directory URL below the base maps to its path below the base and `\_` |
| UrlToPathMapper.RootRows | LightGet.Tests/Of.Logic/UrlToPathMapperTests.cs:11-25 | http://x.com gives `x.com\_`, and `_` without host and port |
| UrlToPathMapper.DeepPathRows | LightGet.Tests/Of.Logic/UrlToPathMapperTests.cs:12-28 | http://x.com/a/b/c gives `x.com\a\b\c`, and `a\b\c` without host and port |
| UrlToPathMapper.QueryOnRootRow | LightGet.Tests/Of.Logic/UrlToPathMapperTests.cs:15 | http://x.com?a=b/c gives `x.com\_a=b_c` |
| UrlToPathMapper.PortAndQueryRow | LightGet.Tests/Of.Logic/UrlToPathMapperTests.cs:17 | http://x.com:8080?a=b/c gives `x.com_8080\_a=b_c` |
| UrlToPathMapper.PathAndQueryRow | LightGet.Tests/Of.Logic/UrlToPathMapperTests.cs:16 | http://x.com/a?b=c gives `x.com\a_b=c` |
| UrlToPathMapper.RelativeRows | LightGet.Tests/Of.Logic/UrlToPathMapperTests.cs:42-44 | with base http://x.com/a/: the base gives `_`, /a/b gives `b`, /a/b/ gives `b\_` |
| UrlToPathMapper.FileNameOnFileRows | LightGet.Tests/Of.Logic/UrlToPathMapperTests.cs:57-58 | with something.zip, /a with any query gives `x.com\something.zip` |
| UrlToPathMapper.FileNameInDirectoryRow | LightGet.Tests/Of.Logic/UrlToPathMapperTests.cs:59 | with something.zip, /a/ gives `x.com\a\something.zip` |
| UrlToPathMapper.FileNameReplacesFileRow | LightGet.Tests/Of.Logic/UrlToPathMapperTests.cs:60 | with something.zip, /a/b gives `x.com\a\something.zip` |
| Uris.Resolve | LightGet/Logic/LinkExtractor.cs:36-37 | the scheme is kept; the authority is the reference's or the base's; an absolute path is taken as is, a relative one ends the merged path; an empty reference keeps the base path, and the base query when it has none; the query is the reference's when it has a path or query |
| LinkExtractor.ResolutionBase | LightGet/Logic/LinkExtractor.cs:20-26 | the base element's URI when it is non-empty and absolute, else the document URL |
| LinkExtractor.LinkOf | LightGet/Logic/LinkExtractor.cs:30-44 | an href that does not parse gives nothing; an absolute one gives itself exactly when its scheme is followed; a relative one gives its resolution against the base exactly when the base's scheme is followed |
| LinkExtractor.Links | LightGet/Logic/LinkExtractor.cs:29-45 | at most one link per href, each with scheme http, https or ftp |
| LinkExtractor.ExtractLinks | LightGet/Logic/LinkExtractor.cs:12-46 | nothing for a non-HTML media type; otherwise the links of the hrefs, in order, against the resolution base |
| LinkExtractor.LinksAppend | LightGet/Logic/LinkExtractor.cs:29-45 | the links of concatenated href lists are concatenated: document order is kept |
| LinkExtractor.BrokenHrefIsSkipped | LightGet/Logic/LinkExtractor.cs:31-34 | an unparseable href is skipped and later hrefs still count |
| LinkExtractor.LinksAreContributions | LightGet/Logic/LinkExtractor.cs:29-45 | a URI is a link exactly when some href yields it |
| LinkExtractor.ResolutionExamples | LightGet.Tests/Of.Logic/LinkExtractorTests.cs:14-15 | against http://x.com/a/, "b" gives /a/b, "/b" gives /b, and mailto is dropped |
| LinkExtractor.BaseElementExample | LightGet/Logic/LinkExtractor.cs:20-26 | an absolute base element wins over the document URL |
| Http.Received | LightGet/Logic/Downloader.cs:91 | a read returns at most what was asked and what was available, and all that was available when less than asked |
| Downloader.GetFileName | LightGet/Logic/Downloader.cs:116-126 | fails exactly on a malformed header; a name exactly when the disposition has a non-empty file name, and then that name |
| Downloader.PlanFor | LightGet/Logic/Downloader.cs:56-77 | complete iff 0 < length = announced; a range iff 0 < length < announced, and then from the length to the announced length, appended, counting the length as downloaded before; OpenOrCreate iff the file is longer; a message iff the file is non-empty |
| Downloader.LengthAfter | LightGet/Logic/Downloader.cs:82 | Append adds the written bytes; OpenOrCreate never truncates: the file keeps at least its old length and the written bytes |
| Downloader.CopyFrom | LightGet/Logic/Downloader.cs:88-108 | the copy writes at least its starting total and reports once per read before it stops |
| Downloader.CopyStream | LightGet/Logic/Downloader.cs:84-108 | the buffer loop computes CopyFrom from a zero total |
| Downloader.CopyWritesDelivered | LightGet/Logic/Downloader.cs:88-108 | the bytes written are those delivered by the reads before the stop, and the copy fails exactly when it stopped at an IOException, with its message |
| Downloader.CopyReportsRunningTotal | LightGet/Logic/Downloader.cs:99-107 | the j-th report carries the announced length, the bytes before, the running total after read j and its stopwatch reading |
| Downloader.CopyReportsOnlyProgress | LightGet/Logic/Downloader.cs:102-107 | the copy loop emits only progress reports, each with the same bytes-before |
| Downloader.AttemptSpec | LightGet/Logic/Downloader.cs:46-114 | an attempt consumes at most one GET, an interrupted one exactly one, and never shortens the file |
| Downloader.DownloadAttempt | LightGet/Logic/Downloader.cs:46-114 | the attempt method computes AttemptSpec |
| Downloader.AlreadyCompleteIssuesNoGet | LightGet/Logic/Downloader.cs:58-62 | a file as long as announced gives the result with the raw Content-Type, no GET and no change |
| Downloader.ResumeRequestsRemainder | LightGet/Logic/Downloader.cs:64-68 | a shorter file requests the range from its length to the announced length, reports it, and grows by what was delivered, every report counting its length as before |
| Downloader.CompletedResumeIsNotFetchedAgain | LightGet/Logic/Downloader.cs:58-113 | a resume whose stream delivers the rest makes the file complete, the last report shows nothing remaining, and a later attempt issues no GET |
| Downloader.LargerFileKeepsItsLength | LightGet/Logic/Downloader.cs:73-82 | a file longer than announced is fetched in full without truncation, keeps its length, and is fetched in full again next time |
| Downloader.AttemptIssuesNoHead | LightGet/Logic/Downloader.cs:46-114 | an attempt issues no HEAD and only GETs for its own URL |
| Downloader.InterruptedResumeContinues | LightGet/Logic/Downloader.cs:36-43 | an IOException interrupts with its message after the delivered bytes, and the retry continues from the longer file with the next GET after an error report |
| Downloader.Retry | LightGet/Logic/Downloader.cs:36-43 | the retry loop computes RetrySpec |
| Downloader.RetryIssuesNoHead | LightGet/Logic/Downloader.cs:36-43 | retries reuse the HEAD response: no HEAD and only GETs for the URL |
| Downloader.RetryNeverShrinksFile | LightGet/Logic/Downloader.cs:36-43 | the file after retrying is at least as long as before |
| Downloader.RetryResultUrl | LightGet/Logic/Downloader.cs:36-43 | a result of the retry loop is for the URL it was given |
| Downloader.Download | LightGet/Logic/Downloader.cs:18-44 | the download method computes DownloadSpec |
| Downloader.HeadFailuresIssueNoGet | LightGet/Logic/Downloader.cs:19-34 | an error status, a redirect without a location, or a status other than 200 ends with that error after one HEAD and no GET |
| Downloader.RedirectIsFollowed | LightGet/Logic/Downloader.cs:24-30 | a redirect to an absolute location is the download of that location after the HEAD |
| Downloader.RelativeLocationIsRejected | LightGet/Logic/Downloader.cs:29 | a relative location is not resolved and fails |
| Downloader.DownloadRequestsOnlyTheFinalUrl | LightGet/Logic/Downloader.cs:18-44 | a successful download names the URL whose HEAD answered 200, and every GET was for it |
| LegacyDownloader.ShownOf | LightGet/Downloader.cs:102-113 | the reference reading of what is shown: days and hours below 24, or 1-23 hours and minutes, or 1-59 minutes, or seconds below 60 |
| LegacyDownloader.FormatShowsWords | LightGet/Downloader.cs:102-113 | the text splits at its spaces into exactly the number-and-unit words of ShownOf |
| LegacyDownloader.SameTextSameShown | LightGet/Downloader.cs:102-113 | two spans give the same text iff they show the same units and values |
| LegacyDownloader.FormatDaysExample | LightGet/Downloader.cs:103-104 | 90061000 ms is "1 days 1 hours" |
| LegacyDownloader.FormatHoursExample | LightGet/Downloader.cs:106-107 | 3723000 ms is "1 hours 2 minutes" |
| LegacyDownloader.FormatShortExamples | LightGet/Downloader.cs:109-112 | 125000 ms is "2 minutes" and 59999 ms is "59 seconds" |
| LegacyDownloader.RemainingTimeRounds | LightGet/Downloader.cs:82-91 | the estimate remaining × elapsed / downloaded is rounded half up, and fails exactly when nothing is downloaded yet or it exceeds a TimeSpan |
| LegacyDownloader.RemainingReport | LightGet/Downloader.cs:90-100 | something is written iff the text differs from the last one, and then it is the text |
| LegacyDownloader.ReportRemainingTime | LightGet/Downloader.cs:90-100 | writes RemainingReport and always leaves the formatted text as last reported |
| LegacyDownloader.ReportsOnlyChanges | LightGet/Downloader.cs:94-95 | a new estimate is written iff it shows differently; the same one never is |
| LegacyDownloader.GetFileName | LightGet/Downloader.cs:115-127 | fails exactly on a malformed header; the disposition's name when non-empty, else the whole text after the last "/" of the response URI's local path |
| LegacyDownloader.ReadLoop | LightGet/Downloader.cs:63-84 | the loop never passes ContentLength from below and finishes only once it is reached |
| LegacyDownloader.ReadResponse | LightGet/Downloader.cs:53-84 | the bounded read loop computes ReadLoop from zero with nothing reported |
| LegacyDownloader.ReportsNeverRepeat | LightGet/Downloader.cs:83-99 | the loop writes only remaining-time texts, never the same text twice in a row nor the previous one first |
| LegacyDownloader.GenerousStreamCompletes | LightGet/Downloader.cs:63-71 | when every read delivers a full buffer and each stopwatch reading keeps the estimate within a TimeSpan, the loop finishes with exactly ContentLength bytes |
| LegacyDownloader.ResponseWithoutLengthWritesNothing | LightGet/Downloader.cs:52-63 | a GET response without a positive ContentLength completes having written nothing |
| LegacyDownloader.AttemptSpec | LightGet/Downloader.cs:32-88 | an attempt never consumes more GET replies than the script holds, a retried one leaves fewer, and it never shortens the file |
| LegacyDownloader.AttemptConsumesAtMostOneGet | LightGet/Downloader.cs:32-88 | an attempt consumes at most one GET reply, the first, and a retried one exactly that one |
| LegacyDownloader.FetchSpec | LightGet/Downloader.cs:52-87 | the GET part of an attempt keeps the events planned before it as a prefix and never shortens the file |
| LegacyDownloader.FetchConsumesOneGet | LightGet/Downloader.cs:52 | the GET takes exactly the first reply of the script |
| LegacyDownloader.DownloadAttempt | LightGet/Downloader.cs:32-88 | the attempt method computes AttemptSpec |
| LegacyDownloader.Fetch | LightGet/Downloader.cs:52-87 | the GET-and-append method computes FetchSpec |
| LegacyDownloader.ResumeSpec | LightGet/Downloader.cs:40-88 | once the file name is legal, an attempt first reports where it saves and never shortens the file |
| LegacyDownloader.ResumeConsumesAtMostOneGet | LightGet/Downloader.cs:41-52 | a complete or too long file takes no GET reply, any other takes exactly the first |
| LegacyDownloader.Resume | LightGet/Downloader.cs:40-88 | the attempt method after the file name check computes ResumeSpec |
| LegacyDownloader.IllegalFileNames | LightGet/Downloader.cs:39 | `new FileInfo` refuses "a*b", "a?b", ":ab", "1:b", "ab:c", " " and "" |
| LegacyDownloader.LegalFileNames | LightGet/Downloader.cs:39 | `new FileInfo` takes "f.zip" and the drive-relative "c:f" |
| LegacyDownloader.IllegalNameIssuesNoGet | LightGet/Downloader.cs:34-39 | a refused name ends the attempt right after "File will be saved to" with no GET and no change |
| LegacyDownloader.AlreadyDownloadedIssuesNoGet | LightGet/Downloader.cs:41-45 | a file as long as announced is reported complete with no GET and no change |
| LegacyDownloader.ExistingFileGetsRange | LightGet/Downloader.cs:47-49 | any other non-empty file requests the range from its length, and a longer file fails in AddRange before any GET |
| LegacyDownloader.CompletedResumeIsNotFetchedAgain | LightGet/Downloader.cs:41-87 | a resume that reads the rest makes the file complete, and the next attempt is the no-GET one |
| LegacyDownloader.AttemptIssuesNoHead | LightGet/Downloader.cs:32-88 | an attempt issues no HEAD |
| LegacyDownloader.InterruptedAttemptResumes | LightGet/Downloader.cs:20-29 | after an IOException the retry continues from the longer file with the next GET, and a still-short file then requests the rest |
| LegacyDownloader.RetryIssuesNoHead | LightGet/Downloader.cs:20-29 | retries reuse the HEAD response: no HEAD however often |
| LegacyDownloader.RetryNeverShrinksFile | LightGet/Downloader.cs:20-29 | the file after retrying is at least as long as before |
| LegacyDownloader.Download | LightGet/Downloader.cs:11-30 | the download method computes DownloadSpec |
| LegacyDownloader.DownloadIssuesOneHead | LightGet/Downloader.cs:16-20 | a download issues exactly one HEAD, first |
| CommandLineParser.SplitAtFirst | LightGet/ConsoleTools/CommandLineParser.cs:66-67 | the part before holds no separator; with a value, before + separator + value restores the input; without one, the part is the input |
| CommandLineParser.Analyze | LightGet/ConsoleTools/CommandLineParser.cs:56-90 | the argument loop computes Analysis |
| CommandLineParser.LongOptionTakesValue | LightGet/ConsoleTools/CommandLineParser.cs:60-69 | `--k=v` names k with value v, everything after the first `=` |
| CommandLineParser.LongSwitchHasNoValue | LightGet/ConsoleTools/CommandLineParser.cs:66-67 | `--k` names k with a null value |
| CommandLineParser.ShortOptionTakesNextArgument | LightGet/ConsoleTools/CommandLineParser.cs:72-83 | `-k v` names k with value v |
| CommandLineParser.PendingNameIsFlushed | LightGet/ConsoleTools/CommandLineParser.cs:61-64 | `-a --b` records a with a null value, then b |
| CommandLineParser.PendingNameIsFlushedBySingleDash | LightGet/ConsoleTools/CommandLineParser.cs:72-76 | `-a -b` records a with a null value and leaves b waiting for its value |
| CommandLineParser.TrailingNameIsDropped | LightGet/ConsoleTools/CommandLineParser.cs:76-89 | a final `-k` is not recorded at all |
| CommandLineParser.RepeatedNameIsRejected | LightGet/ConsoleTools/CommandLineParser.cs:67 | naming an argument twice fails with its name |
| CommandLineParser.BareArgumentsArePositional | LightGet/ConsoleTools/CommandLineParser.cs:84-86 | arguments without a dash are all positional, in order |
| CommandLineParser.AnalysisNamesAreDistinct | LightGet/ConsoleTools/CommandLineParser.cs:62-81 | the named arguments of a successful analysis have distinct names |
| CommandLineParser.ToPropertyName | LightGet/ConsoleTools/CommandLineParser.cs:52-54 | no longer than the input, and the first character is upper-cased |
| CommandLineParser.KebabToPascal | LightGet/ConsoleTools/CommandLineParser.cs:52-54 | words joined by dashes become those words capitalised and concatenated |
| CommandLineParser.ConvertValue | LightGet/ConsoleTools/CommandLineParser.cs:45-50 | true exactly for a null value on a bool property, else the converter's reading of the text |
| CommandLineParser.BindFrom | LightGet/ConsoleTools/CommandLineParser.cs:29-40 | binding succeeds iff every name is not one letter and names a property, and then sets exactly the properties addressed |
| CommandLineParser.Parse | LightGet/ConsoleTools/CommandLineParser.cs:22-43 | the binding loop computes ParseSpec |
| CommandLineParser.ByteValueExample | LightGet.Tests/Of.ConsoleTools/CommandLineParserTests.cs:12 | `--byte-value=1` hands "1" to the converter of ByteValue |
| CommandLineParser.BoolSwitchIsSetTrue | LightGet/ConsoleTools/CommandLineParser.cs:46-47 | `--k` on a bool property sets it to true |
| CommandLineParser.OneLetterNameIsRejected | LightGet/ConsoleTools/CommandLineParser.cs:30-31 | a one-letter name fails |
| CommandLineParser.UnknownNameIsRejected | LightGet/ConsoleTools/CommandLineParser.cs:34-36 | a name addressing no property fails naming the property |
| CommandLineParser.PositionalArgumentsSetNothing | LightGet/ConsoleTools/CommandLineParser.cs:29 | positional arguments set no property |
| CommandLineParser.ParseSetsDeclaredProperties | LightGet/ConsoleTools/CommandLineParser.cs:34-39 | only properties of the target type are set |
| CommandLineParser.LastBindingWins | LightGet/ConsoleTools/CommandLineParser.cs:29-40 | a property is set from the last named argument addressing it |

## Left out

- Network, disk and clock are parameters: scripted HEAD and GET replies, the file as its length, and stopwatch readings carried by the reads. Sockets, credentials, certificate validation and file handles are not modelled.
- Scripts are finite. Running out of HEAD or GET replies ends a download with `ScriptExhausted`. In the legacy loop, a stream that ends before ContentLength ends with `Stalled`. In the source, redirect and retry chains are unbounded and a stalled read loop spins forever.
- `Program.cs` and `ConsoleUI` are not part of this model, and neither are the remaining argument classes.
- Reflection: the target type of `Parse` is a map from property names to whether each is a bool. `TypeConverter.ConvertFromInvariantString` is foreign, so a bound value is the text it would receive.
- The HTML parser and XPath queries are foreign. A document is the base href and the hrefs they return. `Uri.TryCreate` is a `UriParser` parameter.
- `ContentType` and `ContentDisposition` parsing is foreign. HEAD responses carry its results: the media type, or None when it throws, and the file name, or a malformed marker.
- The `mapPath` delegate and `file.Directory.Create()` of the current downloader are foreign. The mapped file is represented by its length.
- Downloader.AttemptSpec: IOExceptions from opening or writing the file are not modelled; only read failures are.
- Upper and lower casing are ASCII-only. `ToUpperInvariant`, `InvariantCultureIgnoreCase` and culture-sensitive `StartsWith` differ from this outside ASCII.
- LegacyDownloader.IsLegalFileName: covers the exceptions `new FileInfo(fileName)` raises for a blank name, an invalid path character, a wildcard and a ':' anywhere but right after a leading drive letter; path-length limits (PathTooLongException), device names and `\\?\` prefixes are not modelled.
- LegacyDownloader.RemainingTimeRounds: the estimate is computed exactly in rationals from whole-millisecond stopwatch readings. The source computes in double precision from fractional milliseconds, so values near a rounding boundary may differ.
- The legacy percentage display (`LightGet/Downloader.cs:73-78`) is console output with no effect on state, so it is left out.
- The legacy HEAD request follows redirects itself, since `AllowAutoRedirect` is left at its default. The model takes the final HEAD response as given.
- PathMappingRuleConverter.RuleFromWords: the unknown words are reported lower-cased and as a set. The message of the source's FormatException lists each token as first typed, in input order: "Foo" gives "Unknown rules: Foo.".
- Text.AfterLast: `SubstringAfterLast` with no "/" is taken to give the whole string.
- UrlToPathMapper.GetDirectoryName: the normalisation that `Path.GetDirectoryName` applies first is not modelled. That is `NormalizePath` collapsing repeated separators, trimming trailing dots and spaces, and resolving "." and ".." segments, so a body such as `a\\b` keeps its doubled separator. "/" is not taken as a separator, and no mapped body contains one: `ToSeparators` replaces every "/" and a host has none. Roots (a leading separator, a UNC prefix, a drive) are modelled by `RootLength`.
- Uris.Resolve: no dot-segment removal (section 5.2.4 of RFC 3986) and no fragment. `new Uri(base, "../b")` against `http://x.com/a/c/` gives `/a/b`, where the model gives `/a/c/../b`. System.Uri also keeps a reference's fragment, which the model drops.
- Text.NatToString: renders only non-negative numbers. Negative ports, lengths and time components do not occur.
