# iTunes Backup Reader — a verified model of its core

This project models, in Dafny, the three helpers at the centre of the iTunes
backup reader and proves properties of the model.

- **Keyed-archive resolution** (`helpers/deserializer.py`). `recurseCreatePlist` copies an
  NSKeyedArchiver object graph into plain dicts and lists. It drops every
  `$class` key and replaces each UID by the converted object it names.
  `process_nsa_plist` resolves every `$top` root. It wraps each result under
  the root's name; only a dict or list root named `root` in some casing comes
  back unwrapped, while a scalar root is wrapped whatever its name. It
  returns one plist or a list of them.
- **The Manifest.db walk** (`helpers/manifestDbParser.py`). For each row of the `files`
  table, `readManiDb`:
  - decodes the metadata blob (`getFileInfo`);
  - builds the 12-column metadata row;
  - buffers the row and hands the buffer to the metadata database once it
    holds more than 50000 rows;
  - recreates the folder or file under `<outputDir>/Recreated_File_Structure`
    (`recreate`, `recreateFolder`, `recreateFile`).

  Path sanitisation, blob sharding, the timestamp filter (`ReadUnixTime`) and
  `bytes(ea)` are modelled as well.
- **The descriptor plists** (`helpers/plist_parser.py`).
  - `backupReader` builds the 18-column backup summary from Info.plist,
    Manifest.plist and Status.plist.
  - `readApps` builds one 12-field tuple per app that Info.plist describes.
  - `readPlists` removes the apps Info.plist details from Manifest.plist's
    list. It adds an "N/A" tuple for each app that remains, then assembles
    the report.

Modules:

- `PlistValue` (`plist_value.dfy`) holds what the others share:
  - `Value`, the decoded plist value;
  - Python dict operations on an association list (`Get`, `Assign`,
    `RemoveKey`), Python truthiness and Python `==` against a literal;
  - the class `Container`, a dict or list object that the code fills or
    empties in place.
- `Deserializer` (`deserializer.dfy`):
  - the resolution functions;
  - the in-place method `RecurseCreatePlist`;
  - `ProcessNsaPlist`, proved against `TopLevel`.
- `ManifestDbParser` (`manifest_db_parser.dfy`):
  - path functions, the type dispatch and the row builder;
  - the classes `OutputTree`, a log of the file-system actions requested, and
    `MetadataDb`, the batches handed to SQLite;
  - the loop `ReadEntries` and `ReadManiDb`, proved against row, batch and
    action functions of the entries.
- `PlistParser` (`plist_parser.dfy`):
  - `BackupReader`, driven by a column table;
  - `AppRow`, `ReadApps`, the in-place removal loop `RemoveDuplicateApps`;
  - `ReadPlists`, proved against `ReadPlistsSpec`.

A Python exception that escapes is a `None` result, or `crashed` in the walk.
Foreign code is a parameter:

- the keyed-archive object converter (`NSKeyedArchiver_convert`), which may
  raise: it returns `None` then, and the resolution fails with `ConvertFailed`;
- `readPlistFromString`, `sinfHelper` and `frpdHelper`, which may raise too
  and return `None` then; the exception propagates out of `readApps`,
  `backupReader` and `readPlists`;
- the datetime conversion of `ReadUnixTime`, which catches its own errors
  and gives None, so it is total.

In these places the model follows the code rather than what the code seems meant to do:

- **The domain of a copied file.** `recreateFile` does not sanitise the
  domain of a file's destination; only `recreateFolder` does. `DestinationsAgree`
  states when the two destinations coincide.
- **The GroupID column** receives the `UserID` value (lines 231-232 of
  `helpers/manifestDbParser.py`); `BuildRowColumns` states it.
- **A row that cannot be built** raises out of `readManiDb`. This happens when
  the metadata is a list, or when `bytes(ea)` fails. Nothing catches it: the
  rows still buffered are lost and later entries are not visited. Only the
  recreation of an entry is isolated per entry.

## Model

| member | source | states |
|---|---|---|
| PlistValue.AssignGet | helpers/deserializer.py:65 | after `d[k] = v`, `d[k]` is `v` and every other key keeps its binding |
| PlistValue.AssignPresent | helpers/manifestDbParser.py:287 | rebinding a present key keeps the key list and changes only that key's value |
| PlistValue.AssignFresh | helpers/deserializer.py:65 | assigning a key not yet present appends the pair at the end, as a Python dict orders its keys |
| PlistValue.PutAllDistinct | helpers/deserializer.py:42-65 | filling an empty dict from pairs with distinct keys keeps every pair, in order |
| PlistValue.AssignMembers | helpers/deserializer.py:65 | every pair after `d[k] = v` was already there or is the new binding |
| PlistValue.PutAllMembers | helpers/deserializer.py:42-65 | every pair of a filled dict comes from the start dict or from the pairs assigned |
| PlistValue.RemoveKey | helpers/plist_parser.py:150 | after `d.pop(k)`, `k` is gone, every other key keeps its value, nothing is added, and the remaining keys keep their order |
| PlistValue.Omit | helpers/plist_parser.py:148-150 | the keys left after dropping those of a list: exactly the keys not in it, never more than before |
| PlistValue.OmitAbsent | helpers/plist_parser.py:149-150 | popping no key, or only keys that are absent, leaves the key order as it was |
| PlistValue.OmitThen | helpers/plist_parser.py:148-150 | dropping the keys of a list and then one more key is dropping the keys of the longer list |
| PlistValue.Container.SetItem | helpers/deserializer.py:65 | the object's dict becomes the old dict with `key` rebound or appended |
| PlistValue.Container.Append | helpers/deserializer.py:87 | the object's list becomes the old list with `v` at the end |
| PlistValue.Container.Pop | helpers/plist_parser.py:150 | returns the value bound to a present key and leaves the dict without that key |
| Deserializer.RecurseCreatePlist | helpers/deserializer.py:41-87 | the container holds its old members plus the resolution of the skeleton's members, in order (dict members by assignment, list members appended); it returns false exactly when resolution raises |
| Deserializer.ResolveMemberValue | helpers/deserializer.py:46-64 | one member's value: a UID converted and, if a dict or list, copied into a fresh container; a container copied; anything else kept; fails exactly when the resolution raises: a UID out of range, a converter that raises, or the depth bound |
| Deserializer.EntriesErrPersists | helpers/deserializer.py:43-65 | once a prefix of a dict skeleton raises, the whole dict raises |
| Deserializer.ItemsErrPersists | helpers/deserializer.py:67-87 | once a prefix of a list skeleton raises, the whole list raises |
| Deserializer.Members | helpers/deserializer.py:43-45 | the kept members are pairs of the skeleton, none keyed `$class` |
| Deserializer.MembersKeys | helpers/deserializer.py:43-45 | a key survives exactly when it is in the skeleton and is not `$class` |
| Deserializer.MembersUnique | helpers/deserializer.py:42-45 | dropping `$class` keeps dict keys distinct |
| Deserializer.ResolveItemsPointwise | helpers/deserializer.py:66-87 | a list resolves exactly when every element does, and then element i of the result comes from element i |
| Deserializer.ResolveEntriesPointwise | helpers/deserializer.py:42-65 | a dict resolves exactly when every non-`$class` member does, and then yields those keys in order with their resolved values |
| Deserializer.ResolvedDictKeys | helpers/deserializer.py:42-65 | a resolved dict skeleton has exactly the skeleton's keys minus `$class`, in order, each bound to its member's resolution |
| Deserializer.ResolveMemberClassFree | helpers/deserializer.py:44-45 | a resolved member holds no `$class` key at any nesting level |
| Deserializer.ResolveContainerClassFree | helpers/deserializer.py:41-87 | a resolved container holds no `$class` key at any nesting level |
| Deserializer.ResolveEntriesClassFree | helpers/deserializer.py:42-65 | the resolved pairs of a dict skeleton have no `$class` key and class-free values |
| Deserializer.ResolveItemsClassFree | helpers/deserializer.py:66-87 | the resolved elements of a list skeleton are class-free |
| Deserializer.ResolveMemberDepth | helpers/deserializer.py:47-56 | a resolution that did not hit the depth bound gives the same outcome with any larger bound |
| Deserializer.ResolveContainerDepth | helpers/deserializer.py:41-87 | the depth-independence of `ResolveMemberDepth`, for containers |
| Deserializer.ResolveEntriesDepth | helpers/deserializer.py:42-65 | the depth-independence of `ResolveMemberDepth`, for dict members |
| Deserializer.ResolveItemsDepth | helpers/deserializer.py:66-87 | the depth-independence of `ResolveMemberDepth`, for list elements |
| Deserializer.OneHop | helpers/deserializer.py:47-56 | a UID whose object converts without raising to a non-container is stored as that value and followed no further |
| Deserializer.RootNameSpelling | helpers/deserializer.py:126 | `name.lower() == 'root'` holds for exactly the sixteen casings of `root` |
| Deserializer.LeadingRootValues | helpers/deserializer.py:119-139 | there are at most as many root plists as roots |
| Deserializer.ProcessNsaPlist | helpers/deserializer.py:106-145 | the loop with its try/except returns `TopLevel`: one root's plist, `[]` if that root raises, or the list of plists built before the first exception |
| Deserializer.LeadingStops | helpers/deserializer.py:119-143 | once a root raises, later roots add nothing |
| Deserializer.LeadingRootValuesPrefix | helpers/deserializer.py:119-139 | the plists are those of the first roots, in order, and stop early only at a root that raises |
| Deserializer.TopLevelSeveralRoots | helpers/deserializer.py:136-139 | with zero or several roots the result is a list of at most one plist per root, complete exactly when no root raises |
| Deserializer.TopLevelSingleContainer | helpers/deserializer.py:123-137 | a single dict or list root is resolved; it comes back unwrapped when named `root` in some casing, wrapped under its name otherwise, and `[]` when its resolution raises |
| Deserializer.TopLevelSingleScalar | helpers/deserializer.py:133-137 | a single scalar root is wrapped under its own name, even a name spelled `root` |
| Deserializer.TopLevelSingleRoot | helpers/deserializer.py:123-127 | a single dict root named `root` comes back as its resolved dict itself, with the root's keys minus `$class` and no `$class` anywhere, or `[]` if it raises |
| Deserializer.TopLevelSingleNamed | helpers/deserializer.py:123-137 | any other single root comes back as the one-key dict of its name and its resolved container, or of its name and the scalar root itself; `[]` exactly when the container raises |
| ManifestDbParser.ReplaceReserved | helpers/manifestDbParser.py:135-136 | each of the seven reserved characters `<`, `>`, `:`, `"`, the bar, `?` and `*` becomes `_`, every other character stays where it was |
| ManifestDbParser.SlashesToBackslashes | helpers/manifestDbParser.py:137 | every `/` becomes `\`, every other character stays |
| ManifestDbParser.SanitizeOrderIrrelevant | helpers/manifestDbParser.py:135-159 | substituting then replacing slashes (folders) equals the reverse order (files); the result has the same length and no reserved character or slash |
| ManifestDbParser.JoinRelative | helpers/manifestDbParser.py:138-142 | joining a relative component keeps the prefix and inserts one separator |
| ManifestDbParser.Shard | helpers/manifestDbParser.py:154 | `fileId[:2]` is a prefix of the id of length two, or the whole id when shorter |
| ManifestDbParser.BlobPathShape | helpers/manifestDbParser.py:154-155 | the blob lives at `sourceDir/xx/fileId`, `xx` the id's first two characters |
| ManifestDbParser.DestinationsAgree | helpers/manifestDbParser.py:132-160 | a folder and a file with the same non-empty relative path land on the same path when the domain has no reserved character |
| ManifestDbParser.FolderDestinationBelowRoot | helpers/manifestDbParser.py:134-142 | a folder lands below `root/<sanitised domain>`, exactly at it when the relative path is empty, and has no reserved character after the root's separator |
| ManifestDbParser.OutputTree.Perform | helpers/manifestDbParser.py:38-51 | the requested action is logged after the earlier ones |
| ManifestDbParser.RecreateDispatch | helpers/manifestDbParser.py:67-128 | one action for types 4, 2 and 1 (probe, folder, copy to the file destination), none otherwise; the type-4 probe looks where a type-1 copy reads |
| ManifestDbParser.Recreate | helpers/manifestDbParser.py:67-128 | the tree log grows by exactly the actions of the entry's type |
| ManifestDbParser.UnsetTimeValues | helpers/manifestDbParser.py:26 | `t in (0, None, '')` holds exactly for 0, 0.0, False, None and `''` |
| ManifestDbParser.ReadUnixTime | helpers/manifestDbParser.py:24-36 | 0, 0.0, False, None and `''` give None; every other value is handed to the datetime conversion |
| ManifestDbParser.UnwrapExtendedAttributesSpec | helpers/manifestDbParser.py:283-287 | the unwrap keeps every key and every other value; it replaces the attributes by their `NS.data` member exactly when they are a dict holding it, and otherwise leaves the info unchanged |
| ManifestDbParser.FileInfoNotDict | helpers/manifestDbParser.py:279-294 | getFileInfo returns a non-dict only when the blob decodes to a list: no roots, several roots, a single container root that raised, or a single list root named `root` in some casing |
| ManifestDbParser.GetFileInfo | helpers/manifestDbParser.py:277-294 | returns `{}` for an undecodable blob, otherwise the decoded plist with the attributes unwrapped |
| ManifestDbParser.BytesOf | helpers/manifestDbParser.py:220 | `bytes(list)` succeeds exactly when every element is an int 0..255 or a bool, and then gives those bytes in order |
| ManifestDbParser.ToBytesRoundTrip | helpers/manifestDbParser.py:219-220 | `bytes(b) == b`, and `bytes` of the list of a blob's byte values is the blob |
| ManifestDbParser.BytesOfInts | helpers/manifestDbParser.py:220 | a list of ints equal to a blob's bytes converts back to that blob |
| ManifestDbParser.DisplayPathBareDomain | helpers/manifestDbParser.py:224 | the display path starts with the domain and is the bare domain exactly when the relative path is empty |
| ManifestDbParser.BuildMetaRow | helpers/manifestDbParser.py:218-237 | raises exactly for non-dict metadata or truthy attributes without a bytes form; otherwise the row carries the display path, UserID in the GroupID column, None for each unset time, and the attributes as bytes when truthy and unchanged otherwise |
| ManifestDbParser.BuildRowColumns | helpers/manifestDbParser.py:218-237 | the same facts for the row function the walk is specified by |
| ManifestDbParser.RemLen | helpers/manifestDbParser.py:239-241 | the rows left unflushed are fewer than a batch and no more than the rows seen |
| ManifestDbParser.RemLenMod | helpers/manifestDbParser.py:239-241 | the number of rows left unflushed is the number of rows modulo the batch size |
| ManifestDbParser.FullChunksShape | helpers/manifestDbParser.py:239-241 | the flushed batches concatenate to the rows minus the unflushed tail, each exactly 50001 rows |
| ManifestDbParser.ChunksSplit | helpers/manifestDbParser.py:239-248 | the batches are the full ones, then the remainder if it is non-empty |
| ManifestDbParser.ChunksFlatten | helpers/manifestDbParser.py:239-248 | the batches concatenate to every row in order; each holds 1..50001 rows and all but the last exactly 50001; no rows gives no batches |
| ManifestDbParser.ChunksConcat | helpers/manifestDbParser.py:247-248 | the full batches followed by the final flush give back every row |
| ManifestDbParser.ChunkSizes | helpers/manifestDbParser.py:239-248 | every batch is non-empty and at most 50001 rows, and all but the last are full |
| ManifestDbParser.RemainderSnoc | helpers/manifestDbParser.py:222-241 | one more row joins the buffer, which empties when it passes 50000 rows |
| ManifestDbParser.FullChunksSnoc | helpers/manifestDbParser.py:239-241 | one more row adds a full batch exactly when the buffer passes 50000 rows |
| ManifestDbParser.BatchStep | helpers/manifestDbParser.py:222-241 | appending a row and flushing past the threshold keeps flushed batches and buffer equal to the full batches and remainder of the rows |
| ManifestDbParser.MetadataDb.WriteMetaData | helpers/manifestDbParser.py:250-274 | one batch, the whole buffer, is added after the earlier ones |
| ManifestDbParser.LeadingSomePrefix | helpers/manifestDbParser.py:212-245 | the rows written are those of the first entries, and they stop only at an entry that cannot be built |
| ManifestDbParser.LeadingSomeStop | helpers/manifestDbParser.py:217-222 | an entry that cannot be built ends the walk |
| ManifestDbParser.LeadingSomeStep | helpers/manifestDbParser.py:222-237 | a built row extends the rows seen by one |
| ManifestDbParser.FlattenStep | helpers/manifestDbParser.py:243 | one entry's actions extend the log of the actions of the entries before it |
| ManifestDbParser.ReadEntry | helpers/manifestDbParser.py:213-245 | one pass: the entry's row, or `None` with nothing changed; a flush of exactly the full buffer past 50000 rows; then the entry's recreate actions |
| ManifestDbParser.WalkStep | helpers/manifestDbParser.py:212-245 | a pass whose row was built keeps the loop's bookkeeping of rows, batches and actions |
| ManifestDbParser.ReadEntries | helpers/manifestDbParser.py:211-245 | the loop visits the entries up to the first failed row, writes the full batches of their rows, leaves the remainder in the buffer, and logs their actions in order |
| ManifestDbParser.ReadManiDb | helpers/manifestDbParser.py:186-248 | creates the root first; a complete walk writes all batches of all rows, a crashed walk only the full ones; the tree gets the actions of the visited entries |
| ManifestDbParser.ReadManiDbRows | helpers/manifestDbParser.py:211-248 | the rows are the entries' rows in manifest order, stopping only at an entry that cannot be built, and the batches flatten back to them |
| PlistParser.Lookup | helpers/plist_parser.py:89-90 | `.get(key, default)` raises on a non-dict, gives the default for a missing key and the binding for a present one |
| PlistParser.MapAllPointwise | helpers/plist_parser.py:46-82 | a loop of per-item steps succeeds exactly when every step does, and then holds their results in order |
| PlistParser.MapAllStops | helpers/plist_parser.py:46-82 | a step that raises makes the whole loop raise |
| PlistParser.BackupReaderColumns | helpers/plist_parser.py:87-126 | raises exactly when `iTunes Files` or `Lockdown` is not a dict or `frpdHelper` raises on a truthy `iTunesPrefs`; otherwise 18 values in column order, each the column's key from its plist, `''` when the key or Status.plist is missing, the user column from FRPD |
| PlistParser.BackupReaderNoStatus | helpers/plist_parser.py:99-102 | without Status.plist the date, full-backup and version columns are `''`; column 8 is `user_comps` |
| PlistParser.BackupRowNoStatus | helpers/plist_parser.py:99-116 | the same columns, on the assembled list |
| PlistParser.UserCompsCases | helpers/plist_parser.py:89-94 | `user_comps` is FRPD of a truthy `iTunesPrefs` and `''` otherwise, including when it is absent; it raises exactly when `iTunes Files` is not a dict or FRPD raises |
| PlistParser.AppRowRaises | helpers/plist_parser.py:48-82 | an app has a tuple exactly when it is a dict whose metadata decodes to dicts, `sinfHelper` does not raise on it, and it is not a sideloaded app whose name is not text; the tuple's owner is the SINF name and its sideloaded flag is true exactly when that name is `''` |
| PlistParser.AppRowsPointwise | helpers/plist_parser.py:46-84 | one tuple per app, tuple i from app i, or no result if any app raises |
| PlistParser.ReadApps | helpers/plist_parser.py:42-84 | the loop returns exactly the tuples of `AppRows` |
| PlistParser.WithoutKeysSpec | helpers/plist_parser.py:147-150 | after the removal no Info.plist name is left and every other key keeps its value; nothing is added |
| PlistParser.WithoutKeysOrder | helpers/plist_parser.py:147-150 | the remaining keys are Manifest.plist's keys minus the Info.plist names, in their Manifest.plist order |
| PlistParser.RemoveDuplicateApps | helpers/plist_parser.py:148-150 | the Manifest.plist dict, popped in place, becomes `WithoutKeys` of its old entries |
| PlistParser.NotDetailedRowsPointwise | helpers/plist_parser.py:152-168 | one N/A tuple per remaining app, carrying its bundle id, or no result if an app lacks `CFBundleIdentifier` |
| PlistParser.ReadNotDetailedApps | helpers/plist_parser.py:145-168 | the removal loop and the comprehension give the `NotDetailedApps` tuples |
| PlistParser.ReadPlists | helpers/plist_parser.py:143-184 | returns `ReadPlistsSpec`: the backup summary and the detailed tuples followed by the N/A tuples, or `None` if anything raises |
| PlistParser.AppendAll | helpers/plist_parser.py:182-183 | the apps list grows by every N/A tuple, in order |
| PlistParser.ReadPlistsParts | helpers/plist_parser.py:170-184 | a report's apps are the detailed tuples followed by the N/A ones |
| PlistParser.ReadPlistsApps | helpers/plist_parser.py:143-184 | with dicts of applications: one detailed tuple per Info.plist app in order, then one N/A tuple per remaining Manifest.plist app in Manifest.plist order; the N/A apps are exactly the Manifest.plist apps Info.plist does not list |
| PlistParser.ReportedApps | helpers/plist_parser.py:143-184 | the concatenation of the detailed and N/A tuples has that shape |
| PlistParser.DetailedAppsPointwise | helpers/plist_parser.py:170-173 | the detailed tuples are one `AppRow` per Info.plist app, none for an empty dict |
| PlistParser.NotDetailedAppsPointwise | helpers/plist_parser.py:152-168 | the N/A tuples are one per app left after the removal |
| PlistParser.WithoutKeysHas | helpers/plist_parser.py:147-150 | an app remains exactly when Manifest.plist lists it and Info.plist does not |

## Left out

- Reading files, the file system and SQLite are not modelled. This covers
  `readPlist`, `os.path.exists`, `os.path.isfile`, `makedirs`, `copyfile`,
  `utime`, `OpenDb`, the query and `executemany`.
  - The tree and the database are logs of what is asked of them
    (`OutputTree`, `MetadataDb`).
  - A requested action is assumed to be carried out.
  - A failure inside `recreate` is caught and logged by the source. It does
    not change what is logged here.
- Logging and `print` are left out; they have no effect on results.
- The binary-plist codec is a parameter: `ccl_bplist.load`, `deserialise_NsKeyedArchiver`,
  `NSKeyedArchiver_convert`, `readPlistFromString`. So are
  `sinfHelper`, `frpdHelper` and the datetime arithmetic of `ReadUnixTime`.
  Which inputs make the converter or the helpers raise is not modelled; the
  parameters say so by returning `None`.
  - A blob that does not load is `file == None`.
  - `getRootElementNames` and the lookup of each root object by its name
    (line 120 of `helpers/deserializer.py`) are folded into `Archive.roots`,
    so that lookup never raises in the model; in the source a failing lookup
    would end the loop and return the plists built so far.
  - `datetime` and floating point are not modelled.
- `Deserializer.RecurseCreatePlist`: the source recurses without bound. The
  model has a `depth` fuel that limits UID hops into containers. It stands in
  for Python's recursion limit, whose RecursionError `process_nsa_plist`
  catches like any other exception.
- Paths are joined with POSIX `os.path.join`. The Windows joining rules and
  `Path2` long-path handling are not modelled.
- `ManifestDbParser.Recreate`: the sub-steps of `recreateFile` are one
  `CopyBlob` action. These are creating the parent directory (with the EEXIST
  guard), the copy and the best-effort `utime`. A failed `createFolder` is
  logged by the source and is not an error here either.
- `Deserializer.IsRootName` folds only ASCII letters. This does not change the
  comparison: only ASCII letters lower-case to `r`, `o` and `t`.
- Dict iteration in `readApps` and the comprehension of `readPlists` takes the
  i-th pair's value. This equals `apps.get(key)` because decoded plist
  dicts have distinct keys.
- `PlistParser.ReadPlists` takes the three plists already decoded as
  dictionaries, and Status.plist as optional. A top-level plist that is not a
  dict is not modelled.
- Non-dict `Applications` values follow Python:
  - text, list and bytes values are iterated;
  - a non-empty one makes `readApps` or the comprehension raise;
  - an empty one yields no apps, unless the removal loop raises on it;
  - any other value raises.
- Manifest.plist's `Applications` is popped in place. The model copies it into
  a `Container` first. No later read of Manifest.plist looks at
  `Applications`, so aliasing is not modelled.
- Out of scope: `checkPaths`, `parsePlists`, `OpenDb` error handling, the
  command-line entry points, and `helpers/recreator.py`.
