# Document store of the rotion note-taking app, modelled in Dafny

The background process of rotion keeps each note as one file in a
`noted-documents` directory. The file is named `<title>-<id>.<ext>`: `json`
for the record written when the note is created, `html` for the record
written when it is saved. Five request handlers work on that directory:

- FETCH_ALL lists `{title, id}` for every file, decoding both from the name.
- FETCH returns the record of the first file whose name contains the id.
- CREATE returns a new `Untitled` note and writes its file in the background.
- SAVE deletes the stale files of the note and writes `<title>-<id>.html`.
- DELETE unlinks the first file whose name contains the id.

The model has six modules, one file each:

- `Outcomes` (`outcomes.dfy`): `Option`, for JavaScript's `undefined`, and `Result`, for a
  handler's promise settling or rejecting.
- `Strings` (`strings.dfy`): the JavaScript string operations used, with their
  exact edge cases. `includes`, `indexOf`, `split(c)[0]`, and `split(sep)[1]`,
  including splitting on the empty string.
- `Sequences` (`sequences.dfy`): `filter`, `find`, unlinking one name, and the
  duplicate-free property of a directory listing.
- `Naming` (`naming.dfy`): the file naming convention, `getDocumentsPath`, and what
  the listing's decoding of a name does and does not recover.
- `Listing` (`listing.dfy`): the `Document` record and the listing summary. Also
  pure functions for what each handler computes from a listing, with the
  properties of the cleanup, the lookup and the deletion.
- `Store` (`store.dfy`): the class `DocumentStore`. It holds whether the directory
  exists, the file names in listing order, and the record each file holds. It
  has the five handlers: `FetchAll` and `Fetch` are functions that read the
  state, and `Create`, `Save` and `Delete` are methods that change it in place.

The background `mkdir` + `writeFile` of CREATE and SAVE is a `WriteOutcome`
parameter: the write lands, the write fails (the directory was still created),
or `mkdir` fails. Either failure is only logged, and the caller learns nothing.
The write callback cannot run before the handler's synchronous code has
finished. So SAVE is modelled as the synchronous cleanup first and the write
second. `Listing.WriteCommutesWithCleanup` shows that the other order would
give the same listing. The `mkdir` itself runs in the background and may
create a missing directory before SAVE's `readdirSync` runs. A `mkdirFirst`
parameter of `Save` says whether it did: then the listing is empty and SAVE
resolves; otherwise `readdirSync` throws.

The new id of CREATE is a parameter. Its precondition is that no file name
contains it yet, which stands for `randomUUID` returning a fresh value.

Three behaviours of the listing's decoding are worth stating plainly:

- The listed id is not the whole rest of the name after the title. The
  code takes `file.split(title)[1]`, which stops at the next occurrence of
  the title. `Naming.ListedIdVersusRemainder` states exactly when the two
  agree, and `Naming.ListedIdEndsAtRecurrence` states where the id stops
  when they do not.
- Hyphens inside a `randomUUID` id never cut the listed title or id short,
  because the listed title has no `-`. What truncates the listed id is any
  title that occurs in `-<id>.<ext>` (`Naming.ListedIdOfFileName` is that
  if-and-only-if). Examples are `4`, which every version-4 UUID holds at
  index 14, other runs of hex digits, and `h`, `t`, `m`, `l`, `html` or `.`
  by way of the `.html` extension. `Naming.TitleInIdTruncatesListing` is one
  instance.
- The listed id can be `undefined`: for the name `-`,
  `"-".split("")[1]` has no value. So `Summary.id` is an `Option`.

## Model

| member | source | states |
|---|---|---|
| `Strings.IndexOfFrom` | src/main/ipc.ts:31 | the search `split` uses for its separator finds the first occurrence at or after the start, and finds none only when there is none |
| `Strings.BeforeFirst` | src/main/ipc.ts:30 | `file.split('-')[0]` is a prefix of the name with no `-` in it, ending at the first `-` or at the end of the name |
| `Strings.SplitSecond` | src/main/ipc.ts:31 | `s.split(sep)[1]` with a non-empty separator is defined exactly when `s` contains the separator, and is then the text from the end of the first occurrence to the next occurrence or the end of `s` (so it never contains the separator); with the empty separator it is the second character, or undefined when there is none |
| `Sequences.Filter` | src/main/ipc.ts:119 | `filter` keeps exactly the elements satisfying the predicate, and keeps a duplicate-free listing duplicate-free |
| `Sequences.FilterAppend` | src/main/ipc.ts:119 | filtering a concatenation is the concatenation of the filtered parts, so `filter` keeps the order and the multiplicity of the listing |
| `Sequences.FilterOne` | src/main/ipc.ts:119 | filtering one element keeps it when the predicate holds and drops it otherwise; with `FilterAppend` this determines `filter` on every listing |
| `Sequences.Without` | src/main/ipc.ts:120 | unlinking a name leaves exactly the other names |
| `Sequences.WithName` | src/main/ipc.ts:108 | after a file write the listing holds exactly the old names plus the written one, and stays duplicate-free |
| `Sequences.FindIndex` | src/main/ipc.ts:43 | `find` yields the first element satisfying the predicate, and nothing exactly when no element does |
| `Naming.FileName` | src/main/ipc.ts:96 | `<title>-<id>.<ext>` starts with `<title>-<id>`, so it contains both that key and the id |
| `Naming.DocumentsPath` | src/main/ipc.ts:20-23 | `getDocumentsPath` resolves to a file only for a non-empty name; a missing or empty name resolves to the directory itself |
| `Naming.ListedTitleOfFileName` | src/main/ipc.ts:30 | the listed title of `<title>-<id>.<ext>` is the title when the title has no `-`, whatever the id holds |
| `Naming.ListedTitleCutAtDelimiter` | src/main/ipc.ts:30 | a title containing `-` lists only up to its first `-` |
| `Naming.ListedIdVersusRemainder` | src/main/ipc.ts:31 | with a non-empty listed title, the listed id is defined and is a prefix of the text after the title; it is all of that text exactly when the title does not occur in it again |
| `Naming.ListedIdEndsAtRecurrence` | src/main/ipc.ts:31 | when the title does occur again after the title prefix, the listed id is the text after the prefix up to the first such occurrence |
| `Naming.ListedTitle` | src/main/ipc.ts:30 | the listed title is a prefix of the name with no `-`, ending at the first `-` or at the end of the name |
| `Naming.ListedId` | src/main/ipc.ts:31 | the listed id is defined for every non-empty listed title; with an empty title it is the name's second character, or undefined |
| `Naming.CreatedName` | src/main/ipc.ts:65-69 | the created file name starts with `Untitled-<id>` and contains the id |
| `Naming.ListedIdOfFileName` | src/main/ipc.ts:29-31 | `<title>-<id>.<ext>` lists its title, and lists `-<id>.<ext>` as its id exactly when the title does not occur in `-<id>.<ext>` |
| `Naming.CreatedNameListing` | src/main/ipc.ts:29-31 | a created file `Untitled-<uuid>.json` lists title `Untitled` and id `-<uuid>.json`, keeping the leading `-` and the extension |
| `Naming.TitleInIdTruncatesListing` | src/main/ipc.ts:31 | `b-1b9d.html` lists title `b` and id `-1`: a title inside the id cuts the listed id short |
| `Naming.EmptyTitleListing` | src/main/ipc.ts:30-31 | a name starting with `-` lists an empty title and, as id, only its second character, or `undefined` for the name `-` |
| `Listing.ListAll` | src/main/ipc.ts:29-32 | the listing has one summary per file name, in directory order, each decoded from that name |
| `Listing.Summarize` | src/main/ipc.ts:29-32 | an entry's title is a `-`-free prefix of the name, and with a non-empty title its id is defined and starts the text after the title |
| `Listing.FirstContaining` | src/main/ipc.ts:43 | the lookup of FETCH and DELETE yields the first name containing the id, and nothing exactly when no name contains it |
| `Listing.StaleFiles` | src/main/ipc.ts:119 | the files SAVE deletes are exactly the names that contain the id but not `<title>-<id>`, without duplicates |
| `Listing.Survivors` | src/main/ipc.ts:118-120 | the names left by the cleanup are exactly the names that are not stale, and each of them that contains the id contains `<title>-<id>` |
| `Listing.RemoveFirst` | src/main/ipc.ts:128-134 | the listing after DELETE loses at most one name, gains none, and is unchanged when no name contains the id |
| `Listing.AfterSave` | src/main/ipc.ts:108-120 | after a SAVE whose write lands, the target `<title>-<id>.html` is listed and every name containing the id contains `<title>-<id>` |
| `Listing.SummaryOfFileName` | src/main/ipc.ts:29-32 | the summary of a conventionally named file is its title with `-<id>.<ext>` as id, given a non-empty title without `-` that does not recur |
| `Listing.FileNameNeverStale` | src/main/ipc.ts:119 | a `<title>-<id>.<ext>` file, such as the target `.html` of SAVE or a same-title `Untitled-<id>.json`, is never selected for deletion by a SAVE with that title and id |
| `Listing.CleanupSpec` | src/main/ipc.ts:118-120 | after the cleanup every remaining name containing the id contains `<title>-<id>`; the names not containing the id are unchanged and in the same order; nothing that was not stale is lost; the kept and deleted names add up to the listing |
| `Listing.WriteCommutesWithCleanup` | src/main/ipc.ts:105-120 | writing the SAVE target before the cleanup gives the same listing as writing it after |
| `Listing.DeleteRemovesAtMostOne` | src/main/ipc.ts:128-134 | DELETE removes one name when some name contains the id and none otherwise; the name removed is the first containing the id, and the rest keep their order |
| `Listing.DeleteTwice` | src/main/ipc.ts:128-134 | when at most one name contains the id, a second DELETE changes nothing |
| `Listing.MatchingReachesLongerIds` | src/main/ipc.ts:43 | with notes `AB` and `A` listed in that order, lookup and deletion of id `A` hit the file of `AB` |
| `Listing.CreatedIsFound` | src/main/ipc.ts:43 | a created file is the first match for its id when no earlier name contains that id |
| `Listing.RenameLeavesOneFile` | src/main/ipc.ts:93-120 | after SAVE with title `a` and then `b`, the only name containing the id is `<b>-<id>.html`, and lookup finds it; this needs `<b>-<id>` absent from the other names and from `<a>-<id>.html` |
| `Store.DocumentStore.ReadFile` | src/main/ipc.ts:44-48 | reading succeeds exactly for a file in the directory and yields its record; reading the directory path fails |
| `Store.DocumentStore.FetchAll` | src/main/ipc.ts:25-37 | FETCH_ALL fails exactly when the directory is missing; otherwise it lists one `{title, id}` per file in order, decoded by `split`, with no content |
| `Store.DocumentStore.Fetch` | src/main/ipc.ts:39-53 | FETCH succeeds exactly when the directory exists and some name contains the id, returning the record of the first such name; with no match it reads the directory path and fails, never returning a default document |
| `Store.DocumentStore.WriteFile` | src/main/ipc.ts:74-77 | a write puts the record under its name, which keeps its place if present and is added at the end otherwise |
| `Store.DocumentStore.Unlink` | src/main/ipc.ts:120 | unlinking removes exactly that name and its record |
| `Store.DocumentStore.Create` | src/main/ipc.ts:55-88 | CREATE returns `{id, title: "Untitled"}` without content, whatever the background write does; if the write lands, `Untitled-<id>.json` holding that record is appended and a FETCH of the id returns it |
| `Store.DocumentStore.RemoveStale` | src/main/ipc.ts:118-120 | the `filter` + `unlinkSync` loop leaves exactly the names that are not stale, with their records unchanged |
| `Store.DocumentStore.Save` | src/main/ipc.ts:90-122 | SAVE deletes exactly the stale names, then, if the write lands, stores `{id, title, content}` under `<title>-<id>.html`; a write that does not land changes no record; afterwards every name containing the id contains `<title>-<id>`; with no directory nothing is deleted, the promise rejects unless the background `mkdir` created the directory first, and the write still happens |
| `Store.DocumentStore.Delete` | src/main/ipc.ts:124-136 | DELETE leaves the listing with the first name containing the id removed and all other records unchanged; it fails only when the directory is missing, never for a missing match |

## Left out

- Electron's `ipcMain.handle` registration and the request/response transport: each handler is a method or function of `DocumentStore`.
- `os.homedir` and `path.join`: the documents directory is one abstract location, and file names are plain strings.
- `randomUUID`: the new id is a parameter of `Create`, with a precondition that no file name contains it. So CREATE overwriting an existing file is not modelled.
- `JSON.stringify` and `JSON.parse`: files hold `Document` values directly. A file whose text does not parse is not modelled.
- The electron-store side index written by CREATE (`store.set`): it is a foreign library, and no handler reads it back.
- `console.log` of swallowed `mkdir`/`writeFile` errors: these are the failure cases of `WriteOutcome`, and they change nothing visible to the caller.
- Interleaving of a pending background write with later requests: the model settles the write at the end of the request that issued it. The write of CREATE may likewise race a FETCH issued right after it; this is not modelled.
- Directory enumeration order: `readdir` order is up to the file system. The model keeps a fixed order and puts a newly written name at the end.
- File-system errors other than a missing directory: no permission errors, and no failing `unlinkSync`. Every name the model unlinks is present.
- Character encoding: a Dafny `char` stands for one UTF-16 code unit. So surrogate pairs split by `split("")` are not modelled.
