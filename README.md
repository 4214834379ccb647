# Trello to Day One journal migration: a verified model

`trello_journal_migration` turns the cards of a Trello board into entries of a
Day One journal. This model covers its two central steps.

- **The transformation** (`transform.py`) turns each card into a Day One entry:
  - a Markdown body with the card's name as a heading and the trimmed description;
  - a numbered placeholder `{{ATTACHMENT_i}}` for each downloaded attachment;
  - a list of links for the attachments that were not downloaded;
  - tags taken from the card's list name and its labels;
  - creation and modification dates parsed from the card;
  - the local paths of the downloaded files, kept under the internal key `attachment_paths`.

  An optional list filter keeps only the cards of some lists. It ignores case.
- **The packaging** (`dayone.py`) builds the import archive:
  - It walks every entry's attachment paths in order. Missing files are skipped.
  - Each path is hashed once per run. The loop draws a fresh identifier per existing file and appends a photo descriptor `{md5, identifier, type, orderInEntry}`.
  - It rewrites the file's placeholder in the entry text into `dayone-moment://<identifier>`.
  - It writes `Journal.json` (the entries without their internal keys, inside the `{"metadata": {"version": "1.0"}, "entries": [...]}` envelope).
  - It adds one `photos/<md5>.<ext>` member per distinct digest.

## Modules

- `strings.dfy` (`Strings`): the Python string operations the code relies on.
  - `str.replace` becomes `ReplaceAll`, with lemmas on which occurrences survive it.
  - `str.strip` on whitespace, `str.lower` on ASCII, `"\n".join` and `%d`.
- `values.dfy` (`Values`): JSON values, dict-shaped records, and Python truthiness.
- `placeholders.dfy` (`Placeholders`): the placeholder and moment-reference markers. It proves that two different markers never overlap.
- `dayone.dfy` (`DayOne`): `create_entry`, `file_extension`, `build_dayone_json` and `write_dayone_zip`.
  - Packaging is a pure specification (`PackPaths`, `PackEntry`, `RunAfter`, `PackEntries`, `PhotoMembers`).
  - Methods with loops implement it over an `array` of entries and are proved equal to that specification.
- `transform.dfy` (`Transform`): `parse_trello_date`, `build_entry_body`, `collect_tags`, `card_to_entry` and `transform_cards`. Each loop of the source is a method proved equal to a specification function.
- `pipeline.dfy` (`Pipeline`): both stages together.
  - Every converted entry can be packaged.
  - After packaging, the placeholder of every existing file has become that file's moment reference.

Clocks, UUIDs, file digests, `os.path.isfile` and the ISO date parser are passed in as functions, because the code cannot compute them itself:
- `DayOne.Oracles` gives the n-th file read's digest and the n-th identifier drawn, so the hashing cache is visible.
- `Transform.Clocks` gives the clock reading and identifier used for the i-th card.

## Model

| member | source | states |
|---|---|---|
| DayOne.CreateEntry | trello_journal_migration/dayone.py:26-45 | the entry has exactly the seven Day One keys, the given uuid, text, starred flag, journal and tags, and each date is the given one when non-empty and the current time otherwise |
| DayOne.FileExtensionFacts | trello_journal_migration/dayone.py:57-63 | a type tag is never `jpg`, contains no dot or slash, and is unchanged by canonicalising it again |
| DayOne.FileExtensionOfName | trello_journal_migration/dayone.py:57-63 | for `stem.ext` the tag is the lower-cased `ext`, with `jpg` read as `jpeg` |
| DayOne.RawExtensionOfName | trello_journal_migration/dayone.py:59 | `splitext` followed by `lstrip(".")` yields exactly the text after the final dot of `stem.ext` |
| DayOne.FileExtensionOfHiddenName | trello_journal_migration/dayone.py:59 | a dot file such as `dir/.bashrc` has no extension |
| DayOne.LastIndexOfFacts | trello_journal_migration/dayone.py:59 | the separator search used by `splitext` finds the last occurrence, or -1 when there is none |
| DayOne.Serialized | trello_journal_migration/dayone.py:73-77 | a serialized entry keeps every key except `attachment_paths` and `attachment_photos`, with the values unchanged |
| DayOne.Envelope | trello_journal_migration/dayone.py:80-83 | the document has only `metadata` (version 1.0) and `entries`, and entry i of the document is entry i of the input, serialized |
| DayOne.BuildDayOneJson | trello_journal_migration/dayone.py:66-83 | the loop builds exactly the envelope of the serialized entries, in input order |
| DayOne.PhotoRecordsAt | trello_journal_migration/dayone.py:128-133 | element k of an entry's `photos` array is the k-th descriptor as a JSON object |
| DayOne.CachePath | trello_journal_migration/dayone.py:119-123 | a path not yet in `photo_files` is hashed as the next read and stored with its extension; a known path leaves the cache unchanged |
| DayOne.Cached | trello_journal_migration/dayone.py:119-125 | after a path is met it is in the cache and the identifier count is unchanged; every path cached before keeps its pair, and the insertion order gains at most that path at its end |
| DayOne.CachedValid | trello_journal_migration/dayone.py:119-123 | meeting a path keeps the cache valid: each path is cached once, with the digest of the read made when it was first met |
| DayOne.CachedExtends | trello_journal_migration/dayone.py:119-123 | meeting a path keeps every earlier pair and the earlier order, and appends at most that path |
| DayOne.PackPathList | trello_journal_migration/dayone.py:114-138 | the inner loop yields the descriptors and cache of the specification, and the text has each descriptor's placeholder rewritten in order |
| DayOne.PackPathsCount | trello_journal_migration/dayone.py:114-133 | one descriptor per path naming an existing file, and one identifier drawn per descriptor |
| DayOne.PackPathsIdentifier | trello_journal_migration/dayone.py:126 | the k-th descriptor of an entry carries the k-th identifier drawn for that entry |
| DayOne.PackPathsPositions | trello_journal_migration/dayone.py:114-132 | each descriptor's `orderInEntry` is the original index of a path that names an existing file |
| DayOne.PackPathsIncreasing | trello_journal_migration/dayone.py:114-133 | descriptors appear in strictly increasing `orderInEntry` order |
| DayOne.PackPathsComplete | trello_journal_migration/dayone.py:114-133 | every existing path j has a descriptor with `orderInEntry == j`, at position "number of existing paths before j" |
| DayOne.PackPathsExtends | trello_journal_migration/dayone.py:107-123 | within an entry the cache only grows: earlier pairs and order are kept |
| DayOne.PackPathsValid | trello_journal_migration/dayone.py:119-123 | the cache stays valid over one entry's paths |
| DayOne.PackPathsCovers | trello_journal_migration/dayone.py:115-123 | every existing path is cached afterwards |
| DayOne.PackPathsAddsExisting | trello_journal_migration/dayone.py:115-123 | only paths naming existing files enter the cache |
| DayOne.PackPathsAgree | trello_journal_migration/dayone.py:125-133 | every descriptor carries the cached digest and type of its own path |
| DayOne.ResolveText | trello_journal_migration/dayone.py:135-138 | after the rewrites no placeholder of a resolved index remains, other placeholders are present exactly when they were before, and each resolved placeholder that occurred leaves its moment reference |
| DayOne.PackEntryText | trello_journal_migration/dayone.py:114-140 | after packaging an entry, no placeholder of an existing file remains; the placeholder of a missing or out-of-range index is present exactly when it was before; each descriptor whose placeholder occurred has its reference in the text |
| DayOne.PackEntryChanges | trello_journal_migration/dayone.py:110-140 | packaging changes only `text` and `photos`; `photos` is the descriptor list, and the text is untouched when no file exists |
| DayOne.PackAttachments | trello_journal_migration/dayone.py:111-140 | packaging one entry with the loops gives the entry and cache of the specification |
| DayOne.PackEntriesAt | trello_journal_migration/dayone.py:110-140 | entry i after packaging is entry i packaged with the cache left by the entries before it |
| DayOne.PackEntriesChanges | trello_journal_migration/dayone.py:110-140 | in a batch, each entry changes only in `text` and `photos`, and `photos` is that entry's descriptor list |
| DayOne.PackEntriesInPlace | trello_journal_migration/dayone.py:107-140 | the outer loop rewrites the array in place into the packaged entries and returns the run's final cache |
| DayOne.PackEntryAt | trello_journal_migration/dayone.py:110-140 | one turn of the outer loop packages entry i in place and leaves the other array cells as they were |
| DayOne.RunAfterExtends | trello_journal_migration/dayone.py:107-123 | the cache of a later point in the run keeps every pair and the order of an earlier one |
| DayOne.RunAfterValid | trello_journal_migration/dayone.py:107-123 | over the whole run each path is hashed once, by the read made when it was first met |
| DayOne.EntryPhotosAgree | trello_journal_migration/dayone.py:125-133 | every descriptor of every entry agrees with the final cache |
| DayOne.SamePathSameDigest | trello_journal_migration/dayone.py:119-125 | two descriptors of the same path, in any entries, carry the same digest and type |
| DayOne.DescriptorType | trello_journal_migration/dayone.py:122-131 | a descriptor's type is `file_extension` of its path, which is never `jpg` and has no dot |
| DayOne.Written | trello_journal_migration/dayone.py:151-157 | the positions whose files are written are increasing, and each is the first cached position with its digest |
| DayOne.WrittenDigestsDistinct | trello_journal_migration/dayone.py:151-157 | no digest is written to the archive twice |
| DayOne.WrittenComplete | trello_journal_migration/dayone.py:151-157 | every position that is the first with its digest is written |
| DayOne.WrittenCoversDigests | trello_journal_migration/dayone.py:151-157 | every cached digest is written by some member |
| DayOne.PhotoMembersCoverDigest | trello_journal_migration/dayone.py:151-157 | every cached path's digest has a `photos/` member, copied from the first path with that digest |
| DayOne.DigestsBeforeMembers | trello_journal_migration/dayone.py:151-157 | `added_md5s` after i steps holds exactly the digests of the first i cached paths |
| DayOne.FirstWithDigestIsNew | trello_journal_migration/dayone.py:153-157 | a cached path is written exactly when its digest is not yet in `added_md5s` |
| DayOne.ArchivePhotoMembers | trello_journal_migration/dayone.py:150-157 | the loop over `photo_files` yields exactly the specified `photos/<md5>.<ext>` members, in cache order |
| DayOne.ArchiveCoversDescriptors | trello_journal_migration/dayone.py:125-157 | every descriptor's digest names a `photos/` member of the archive |
| DayOne.WriteDayOneZip | trello_journal_migration/dayone.py:86-159 | the entries are packaged in place; the archive lies at `output_dir/filename` and holds `Journal.json` (the envelope of the packaged entries) followed by one member per distinct digest |
| Transform.ZuluToOffsetFacts | trello_journal_migration/transform.py:37-39 | the text handed to the ISO parser has no `Z` left, and a date without `Z` is passed on unchanged |
| Transform.ParseTrelloDate | trello_journal_migration/transform.py:29-42 | an empty date gives the current time; otherwise the result is the parser's rendering of the date with `Z` read as `+00:00` when parsing succeeds, and the current time when it fails |
| Transform.DownloadedSplit | trello_journal_migration/transform.py:68-69 | every attachment is either downloaded (non-empty local path) or linked, never both |
| Transform.BuildEntryBody | trello_journal_migration/transform.py:45-87 | the line-by-line construction gives the `"\n"`-join of the specified lines, or fails exactly where the source raises |
| Transform.AppendImageLines | trello_journal_migration/transform.py:72-75 | the loop appends an image line and a blank line for each downloaded attachment, in order |
| Transform.AppendLinkLines | trello_journal_migration/transform.py:81-84 | the loop appends one link line per attachment that was not downloaded, and fails when one of them has no url |
| Transform.LinkLinesFail | trello_journal_migration/transform.py:83 | a linked attachment without a url makes the body fail |
| Transform.LinkLinesFacts | trello_journal_migration/transform.py:81-84 | the links exist exactly when every linked attachment has a url, and then link j is attachment j's line |
| Transform.ImageLinesAt | trello_journal_migration/transform.py:72-75 | line 2i of the image block is the image of placeholder i, and line 2i+1 is blank |
| Transform.ImageLineInjective | trello_journal_migration/transform.py:73-74 | different indexes give different image lines |
| Transform.ImageLinesExact | trello_journal_migration/transform.py:72-75 | the image line of placeholder j occurs in the block at position 2j and nowhere else |
| Transform.BodySucceeds | trello_journal_migration/transform.py:66-85 | building the body fails exactly when attachments are included and some attachment that was not downloaded has no url |
| Transform.BodyHead | trello_journal_migration/transform.py:55-63 | the body starts with `# name` and a blank line; a stripped, non-blank description follows (with its blank line) exactly when the description is not all whitespace |
| Transform.BodyStartsWithTitle | trello_journal_migration/transform.py:56-87 | the body text starts with `# name` followed by a newline |
| Transform.BodyWithoutAttachments | trello_journal_migration/transform.py:66-67 | without attachments, or with them turned off, the body is just title and description |
| Transform.BodyImageLine | trello_journal_migration/transform.py:72-75 | in the image block, the line of placeholder j is at head + 2j and nowhere else |
| Transform.BodyOtherAttachments | trello_journal_migration/transform.py:78-85 | with no linked attachment the body ends after the images; otherwise the `## Other Attachments` section follows with a blank line, one line per link and a final blank line |
| Transform.BodyLinkLine | trello_journal_migration/transform.py:81-84 | link j is at its place after the section heading and names attachment j's display name and url |
| Transform.BodyContainsPlaceholder | trello_journal_migration/transform.py:72-87 | the body text contains the placeholder of every downloaded attachment |
| Transform.CollectTags | trello_journal_migration/transform.py:90-106 | the loop gives the list name (when non-empty) followed by every non-empty label name in label order |
| Transform.TagsFacts | trello_journal_migration/transform.py:95-106 | there are at most 1 + \|labels\| tags, the list name comes first when present, no tag is empty, and a string is a tag exactly when it is the list name or a label name and is not empty |
| Transform.TagsKeepDuplicates | trello_journal_migration/transform.py:98-104 | duplicates are kept: list `x` with labels `x`, ``, `x` gives `x, x, x` |
| Transform.TagsOfMoreLabels | trello_journal_migration/transform.py:101-104 | adding labels appends exactly their non-empty names to the tags |
| Transform.CollectLocalPaths | trello_journal_migration/transform.py:130-135 | the loop gives the local paths of the downloaded attachments, in card order |
| Transform.CardToEntry | trello_journal_migration/transform.py:109-146 | the conversion steps give the specified entry, or fail where building the body raises |
| Transform.CardEntryFails | trello_journal_migration/transform.py:121 | conversion fails exactly when building the body fails |
| Transform.CardEntryFields | trello_journal_migration/transform.py:121-145 | the entry has the Day One keys plus `attachment_paths`; its text is the body, its tags the collected tags, it is not starred, it carries the journal name and uuid, and its dates are the parsed due date (falling back to last activity) and the parsed last activity |
| Transform.CardEntryPaths | trello_journal_migration/transform.py:129-145 | `attachment_paths` lists the downloaded attachments' non-empty local paths in card order, and is empty when attachments are left out |
| Transform.CardEntryPlaceholders | trello_journal_migration/transform.py:72-135 | for every stored path i the text holds placeholder i, so placeholder indexes and path indexes match |
| Transform.SelectCardsMembers | trello_journal_migration/transform.py:161-168 | without a filter every card is kept; with one, a card is kept exactly when its list name equals a filter name up to ASCII case |
| Transform.SelectCardsOrder | trello_journal_migration/transform.py:165-168 | selection keeps the cards' order: selecting from a concatenation concatenates the selections |
| Transform.SelectCardsIgnoresCase | trello_journal_migration/transform.py:163-167 | lower-casing the filter names first selects the same cards |
| Transform.ConvertAllSucceeds | trello_journal_migration/transform.py:170-173 | converting the selected cards succeeds exactly when every card converts, and then gives one entry per card |
| Transform.ConvertAllAt | trello_journal_migration/transform.py:170-173 | entry i of the result is card i converted with the i-th clock reading and identifier |
| Transform.TransformCardsUnfiltered | trello_journal_migration/transform.py:149-173 | without a filter, entry i is card i converted |
| Strings.ReplaceAllRemoves | trello_journal_migration/dayone.py:138 | after `str.replace`, the pattern no longer occurs when it and the replacement cannot overlap |
| Strings.ReplaceAllKeepsOccurrence | trello_journal_migration/dayone.py:138 | replacing a pattern that cannot overlap a string keeps every occurrence of that string |
| Strings.ReplaceAllCreatesNoOccurrence | trello_journal_migration/dayone.py:138 | a replacement that cannot overlap a string creates no new occurrence of it |
| Strings.ReplaceAllInserts | trello_journal_migration/dayone.py:138 | replacing a pattern that occurs puts the replacement into the text |
| Strings.ReplaceAllWithoutMatch | trello_journal_migration/transform.py:39 | `str.replace` of a pattern that does not occur leaves the text as it is |
| Strings.LowerIdempotent | trello_journal_migration/transform.py:164-167 | lower-casing twice equals lower-casing once, and leaves no upper-case ASCII letter |
| Strings.StripFacts | trello_journal_migration/transform.py:60-61 | the stripped description neither starts nor ends with whitespace, and is empty exactly when the description is all whitespace |
| Strings.StripInfix | trello_journal_migration/transform.py:60 | the stripped text is a contiguous slice of the original |
| Strings.StripTrailing | trello_journal_migration/transform.py:60 | only whitespace follows the stripped slice in the original |
| Strings.JoinContainsPart | trello_journal_migration/transform.py:87 | every line is contained in the joined text |
| Strings.JoinStartsWith | trello_journal_migration/transform.py:87 | the joined text starts with its first line and the separator |
| Strings.DecimalRoundTrip | trello_journal_migration/dayone.py:136 | the `%d` rendering of an index reads back as the same index |
| Strings.DecimalInjective | trello_journal_migration/transform.py:73 | different indexes render differently |
| Placeholders.PlaceholderChars | trello_journal_migration/transform.py:26 | a placeholder starts with `{{A` and has no other `{`, and contains no `d` |
| Placeholders.MomentRefChars | trello_journal_migration/dayone.py:137 | a moment reference starts with `d` and contains no `{` |
| Placeholders.PlaceholdersDisagree | trello_journal_migration/dayone.py:136 | the placeholders of different indexes differ at some position they share |
| Placeholders.PlaceholdersApart | trello_journal_migration/dayone.py:136-138 | the placeholders of different indexes cannot overlap in any text |
| Placeholders.PlaceholderNotInOther | trello_journal_migration/dayone.py:136-138 | no placeholder occurs inside the placeholder of another index, so replacing one never touches another |
| Placeholders.PlaceholderApartFromRef | trello_journal_migration/dayone.py:136-138 | a placeholder and a moment reference cannot overlap |
| Values.StringArrayRoundTrip | trello_journal_migration/transform.py:145 | a list of paths stored as a JSON array reads back as the same list, and is truthy exactly when it is non-empty |
| Pipeline.CardEntryPackable | trello_journal_migration/transform.py:137-146 | a converted card satisfies what `write_dayone_zip` demands of an entry (dayone.py:112-138) |
| Pipeline.TransformedPackable | trello_journal_migration/transform.py:149-173 | every entry `transform_cards` returns can be handed to `write_dayone_zip` |
| Pipeline.PackagedCardPlaceholder | trello_journal_migration/dayone.py:114-138 | after packaging a converted card, the placeholder of downloaded attachment i is gone when its file exists and still present when it does not |
| Pipeline.PackagedCardReference | trello_journal_migration/dayone.py:125-138 | each descriptor of a packaged card belongs to a stored path naming an existing file, and the text holds that descriptor's moment reference |

## Behaviour worth knowing

- A descriptor's `orderInEntry` is the index of its path in the entry's full `attachment_paths` list, missing files included (dayone.py:114,132). The placeholder rewritten for it carries that same index, so a placeholder and its descriptor stay paired (`DayOne.PackPathsPositions`, `Pipeline.PackagedCardReference`).
- A path whose file is missing when the archive is built gets no descriptor, and its placeholder stays in the text (dayone.py:115-117). `Pipeline.PackagedCardPlaceholder` states both cases.

## Left out

- Fetching the board from Trello, downloading attachments, and the command-line front end: these are outside this model.
- Reading and hashing files, `os.path.isfile`, `uuid.uuid4()`, the clock, and `datetime.fromisoformat` become parameters: `DayOne.Oracles` (including `file_extension`, pinned to `DayOne.FileExtension` by `Packager`) and `Transform.Clocks`. The actual MD5 and ISO 8601 algorithms are not modelled.
- Each card's conversion uses one clock reading for all its "now" values (`Clocks.now(i)`). The source reads the clock separately in `parse_trello_date` and `create_entry`, so its readings can differ by microseconds.
- Writing the zip file (compression, `json.dumps` with indentation and UTF-8 encoding), `os.makedirs`, and the printed warnings: the archive is modelled as its list of members.
- `str.lower` is modelled on ASCII letters only: other characters are kept, so Unicode case mapping is not modelled. `str.strip` uses Python's full set of whitespace characters (`Strings.IsSpace`).
- Card and attachment fields that may be absent or `None` are strings, with `""` standing for both. The code treats both as falsy in its tests, but not where it interpolates a field: a `None` name gives the title `# None` (transform.py:56), and a linked attachment whose `url` is present but `None` gives a line ending in `(None)`, such as `- [None](None)` (transform.py:82-84). Here a `None` name is the empty name, giving `# `. A url is an `Option` whose `None` stands for the absent key, which raises `KeyError`; a url that is present but `None` is not modelled.
  - Transform.CardToEntry: does not model the `KeyError` raised for a card without `name` (transform.py:56); the name is always present here.
  - Transform.SelectCards: does not model the `AttributeError` of a card whose `listName` is `None` under a filter (transform.py:167).
  - `attachment["url"]` is an `Option`, and its `KeyError` is modelled as failure.
- DayOne.WriteDayOneZip: requires every entry to be `Packable` (a list of strings or a falsy value under `attachment_paths`, and a string `text` when some file exists). Other entries are excluded from the model. Some of them make the source raise. With others, such as a non-empty string or dict under `attachment_paths`, the source walks its characters or keys as paths (dayone.py:112-115).
- The same entry dict listed twice in `entries` (aliasing) is not modelled. Entries are values held in an array that the method updates in place.
- Each `for` loop of the source is a `while` loop: `AppendImageLines`, `AppendLinkLines`, `CollectTags`, `CollectLocalPaths`, `BuildDayOneJson`, `PackPathList`, `PackEntriesInPlace` and `ArchivePhotoMembers`. The cache update (`CachePath`) and the body of the outer packaging loop (`PackEntryAt`) are separate methods without loops. The list comprehensions (transform.py:68-69,164-173) are functions (`Filter`, `SelectCards`, `ConvertAll`).
- Paths follow POSIX `os.path` rules (`RawExtension` for `splitext`, `PathJoin` for `join`). Windows drive letters and backslash separators are not modelled.
- The oracles are total. The model does not capture `md5_of_file` raising, for instance on a file that vanishes between the `isfile` test and the read (dayone.py:115-123). In the source that aborts the whole run.
