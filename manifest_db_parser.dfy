/**
 * The Manifest.db walk of helpers/manifestDbParser.py: for every row of the
 * `files` table it decodes the metadata blob, builds a 12-column metadata
 * row, buffers the rows and hands them to the metadata database in batches,
 * and recreates the file or folder the row describes under
 * `<outputDir>/Recreated_File_Structure`.
 *
 * SQLite is a sink that records the batches it is handed (`MetadataDb`);
 * the file system is a log of the actions requested of it (`OutputTree`).
 * Paths are built with POSIX `os.path.join`.
 */
module ManifestDbParser {
  import opened PlistValue
  import opened Deserializer

  // ---------------------------------------------------------------------
  // Path sanitisation
  // ---------------------------------------------------------------------

  /** The characters of the class `[<>:"|?*]`. */
  predicate IsReserved(c: char) {
    c == '<' || c == '>' || c == ':' || c == '"' || c == '|' || c == '?' || c == '*'
  }

  /** `re.sub('[<>:"|?*]', '_', s)`: each reserved character becomes `_`. */
  function ReplaceReserved(s: string): (r: string)
    ensures |r| == |s|
    ensures forall i :: 0 <= i < |s| ==> r[i] == if IsReserved(s[i]) then '_' else s[i]
    decreases |s|
  {
    if s == [] then []
    else
      var last := s[|s| - 1];
      ReplaceReserved(s[..|s| - 1]) + [if IsReserved(last) then '_' else last]
  }

  /** `s.replace("/", "\\")`: each slash becomes a backslash. */
  function SlashesToBackslashes(s: string): (r: string)
    ensures |r| == |s|
    ensures forall i :: 0 <= i < |s| ==> r[i] == if s[i] == '/' then '\\' else s[i]
    decreases |s|
  {
    if s == [] then []
    else
      var last := s[|s| - 1];
      SlashesToBackslashes(s[..|s| - 1]) + [if last == '/' then '\\' else last]
  }

  /**
   * recreateFolder substitutes, then replaces slashes; recreateFile does it
   * the other way round. Neither rewrite produces what the other looks for,
   * so both orders give the same path: same length, no reserved character,
   * no slash, and every other character where it was.
   */
  lemma SanitizeOrderIrrelevant(s: string)
    ensures SlashesToBackslashes(ReplaceReserved(s)) == ReplaceReserved(SlashesToBackslashes(s))
    ensures var r := ReplaceReserved(SlashesToBackslashes(s));
      && |r| == |s|
      && (forall i :: 0 <= i < |r| ==> !IsReserved(r[i]) && r[i] != '/')
      && (forall i :: 0 <= i < |s| && !IsReserved(s[i]) && s[i] != '/' ==> r[i] == s[i])
  {
    var a, b := SlashesToBackslashes(ReplaceReserved(s)), ReplaceReserved(SlashesToBackslashes(s));
    assert |a| == |b|;
    forall i | 0 <= i < |a| ensures a[i] == b[i] {
    }
  }

  // ---------------------------------------------------------------------
  // Paths
  // ---------------------------------------------------------------------

  /**
   * POSIX `os.path.join(a, b)`: an absolute `b` replaces `a`; otherwise `b`
   * is appended after a separator unless `a` is empty or already ends in one.
   */
  function Join(a: string, b: string): (r: string)
  {
    if |b| > 0 && b[0] == '/' then b
    else if a == [] || a[|a| - 1] == '/' then a + b
    else a + "/" + b
  }

  /** Joining a relative component never loses what came before it. */
  lemma JoinRelative(a: string, b: string)
    requires b == [] || b[0] != '/'
    ensures a <= Join(a, b)
    ensures a != [] && a[|a| - 1] != '/' ==> Join(a, b) == a + "/" + b
  {
  }

  /** `fileId[:2]`: the blob's shard directory (the whole id when shorter). */
  function Shard(fileId: string): (r: string)
    ensures r <= fileId
    ensures |r| == if |fileId| < 2 then |fileId| else 2
  {
    if |fileId| < 2 then fileId else fileId[..2]
  }

  /** `os.path.join(sourceDir, fileId[:2], fileId)`: where the backup stores a file. */
  function BlobPath(sourceDir: string, fileId: string): string {
    Join(Join(sourceDir, Shard(fileId)), fileId)
  }

  /** For the usual shapes, the blob path is `sourceDir/xx/fileId` with `xx` the first two characters. */
  lemma BlobPathShape(sourceDir: string, fileId: string)
    requires sourceDir != [] && sourceDir[|sourceDir| - 1] != '/'
    requires |fileId| >= 2 && fileId[0] != '/' && fileId[1] != '/'
    ensures BlobPath(sourceDir, fileId) == sourceDir + "/" + fileId[..2] + "/" + fileId
  {
  }

  /** The directory recreateFolder creates for a folder row. */
  function FolderDestination(root: string, domain: string, relativePath: string): string {
    var d := ReplaceReserved(domain);
    var r := SlashesToBackslashes(ReplaceReserved(relativePath));
    if r != "" then Join(Join(root, d), r) else Join(root, d)
  }

  /** The path recreateFile copies a file row to; the domain keeps its reserved characters. */
  function FileDestination(root: string, domain: string, relativePath: string): string {
    Join(Join(root, domain), ReplaceReserved(SlashesToBackslashes(relativePath)))
  }

  /**
   * A folder and a file with the same domain and a non-empty relative path
   * land on the same path when the domain holds no reserved character, so
   * that sanitising it changes nothing.
   */
  lemma DestinationsAgree(root: string, domain: string, relativePath: string)
    requires relativePath != []
    requires forall i :: 0 <= i < |domain| ==> !IsReserved(domain[i])
    ensures FileDestination(root, domain, relativePath) == FolderDestination(root, domain, relativePath)
  {
    SanitizeOrderIrrelevant(relativePath);
    assert ReplaceReserved(domain) == domain;
  }

  /**
   * Under a root that is a plain relative-or-absolute directory name (not
   * ending in a separator), every folder destination lies below the root,
   * inside the directory named by the sanitised domain, and contains no
   * reserved character after the root's separator.
   */
  lemma FolderDestinationBelowRoot(root: string, domain: string, relativePath: string)
    requires root != [] && root[|root| - 1] != '/'
    requires domain != [] && domain[0] != '/'
    ensures root + "/" + ReplaceReserved(domain) <= FolderDestination(root, domain, relativePath)
    ensures relativePath == [] <==> FolderDestination(root, domain, relativePath) == root + "/" + ReplaceReserved(domain)
    ensures var dest := FolderDestination(root, domain, relativePath);
      forall i :: |root| + 1 <= i < |dest| ==> !IsReserved(dest[i])
  {
    var d := ReplaceReserved(domain);
    var r := SlashesToBackslashes(ReplaceReserved(relativePath));
    assert Join(root, d) == root + "/" + d;
    if r != "" {
      JoinRelative(Join(root, d), r);
      assert |FolderDestination(root, domain, relativePath)| > |root + "/" + d|;
    }
    var t := FolderTail(root, domain, relativePath);
    UnreservedAfter(root + "/", t);
  }

  lemma UnreservedAfter(p: string, t: string)
    requires Unreserved(t)
    ensures forall i :: |p| <= i < |p + t| ==> !IsReserved((p + t)[i])
  {
    forall i | |p| <= i < |p + t| ensures !IsReserved((p + t)[i]) {
      assert (p + t)[i] == t[i - |p|];
    }
  }

  /** A folder destination is `root/` followed by text without reserved characters. */
  lemma FolderTail(root: string, domain: string, relativePath: string) returns (t: string)
    requires root != [] && root[|root| - 1] != '/'
    requires domain != [] && domain[0] != '/'
    ensures FolderDestination(root, domain, relativePath) == (root + "/") + t
    ensures Unreserved(t)
  {
    var d := ReplaceReserved(domain);
    var r := SlashesToBackslashes(ReplaceReserved(relativePath));
    var a := root + "/" + d;
    assert Join(root, d) == a;
    SanitizeOrderIrrelevant(relativePath);
    assert Unreserved(d) && Unreserved(r);
    t := if r == "" then d else if d[|d| - 1] == '/' then d + r else d + "/" + r;
    if r != "" {
      assert r[0] != '/';
      JoinRelative(a, r);
      assert a[|a| - 1] == d[|d| - 1];
      if d[|d| - 1] == '/' {
        UnreservedConcat(d, r);
        assert FolderDestination(root, domain, relativePath) == a + r;
        ConcatAssoc(root + "/", d, r);
      } else {
        UnreservedConcat(d, "/");
        UnreservedConcat(d + "/", r);
        assert FolderDestination(root, domain, relativePath) == a + "/" + r;
        ConcatAssoc(root + "/", d, "/");
        ConcatAssoc(root + "/", d + "/", r);
      }
    }
  }

  lemma ConcatAssoc(x: string, y: string, z: string)
    ensures x + y + z == x + (y + z)
  {
  }

  /** No reserved character in `s`. */
  ghost predicate Unreserved(s: string) {
    forall j :: 0 <= j < |s| ==> !IsReserved(s[j])
  }

  lemma UnreservedConcat(x: string, y: string)
    requires Unreserved(x) && Unreserved(y)
    ensures Unreserved(x + y)
  {
    forall j | 0 <= j < |x + y| ensures !IsReserved((x + y)[j]) {
      if j >= |x| {
        assert (x + y)[j] == y[j - |x|];
      }
    }
  }

  // ---------------------------------------------------------------------
  // recreate: type dispatch
  // ---------------------------------------------------------------------

  /** What recreate asks of the file system. */
  datatype FsAction =
    | ProbeBlob(path: string)
    | CreateFolder(path: string)
    | CopyBlob(source: string, dest: string, accessTime: Value, modifyTime: Value)

  /** The output tree: the actions requested of it, in order. */
  class OutputTree {
    var actions: seq<FsAction>

    constructor ()
      ensures actions == []
    {
      actions := [];
    }

    method Perform(a: FsAction)
      modifies this
      ensures actions == old(actions) + [a]
    {
      actions := actions + [a];
    }
  }

  /** The record of one row of the `files` table. `file` is `None` when the blob does not decode. */
  datatype ManifestEntry = ManifestEntry(fileId: string, domain: string, relativePath: string, fileType: int, file: Option<Archive>)

  /** The actions recreate requests for one row. */
  function RecreateActions(fileId: string, domain: string, relativePath: string, fileType: int,
                           root: string, sourceDir: string, aTime: Value, mTime: Value): seq<FsAction>
  {
    if fileType == 4 then [ProbeBlob(BlobPath(sourceDir, fileId))]
    else if fileType == 2 then [CreateFolder(FolderDestination(root, domain, relativePath))]
    else if fileType == 1 then [CopyBlob(BlobPath(sourceDir, fileId), FileDestination(root, domain, relativePath), aTime, mTime)]
    else []
  }

  /**
   * Exactly one action for types 4, 2 and 1 (an existence probe, a folder, a
   * copy), none for any other type; the probe of a type-4 row looks where a
   * type-1 row with the same id would be copied from.
   */
  lemma RecreateDispatch(fileId: string, domain: string, relativePath: string, fileType: int,
                         root: string, sourceDir: string, aTime: Value, mTime: Value)
    ensures var acts := RecreateActions(fileId, domain, relativePath, fileType, root, sourceDir, aTime, mTime);
      && |acts| == (if fileType == 1 || fileType == 2 || fileType == 4 then 1 else 0)
      && (fileType == 4 ==> acts[0].ProbeBlob?)
      && (fileType == 2 ==> acts[0].CreateFolder?)
      && (fileType == 1 ==> acts[0].CopyBlob? && acts[0].dest == FileDestination(root, domain, relativePath))
    ensures RecreateActions(fileId, domain, relativePath, 4, root, sourceDir, aTime, mTime)[0].path
         == RecreateActions(fileId, domain, relativePath, 1, root, sourceDir, aTime, mTime)[0].source
  {
  }

  /** recreate: three independent tests of the type; a failure inside a branch is logged, not raised. */
  method Recreate(tree: OutputTree, fileId: string, domain: string, relativePath: string, fileType: int,
                  root: string, sourceDir: string, aTime: Value, mTime: Value)
    modifies tree
    ensures tree.actions == old(tree.actions) + RecreateActions(fileId, domain, relativePath, fileType, root, sourceDir, aTime, mTime)
  {
    if fileType == 4 {
      tree.Perform(ProbeBlob(BlobPath(sourceDir, fileId)));
    }
    if fileType == 2 {
      tree.Perform(CreateFolder(FolderDestination(root, domain, relativePath)));
    }
    if fileType == 1 {
      var sourceFile := Join(Join(sourceDir, Shard(fileId)), fileId);
      tree.Perform(CopyBlob(sourceFile, FileDestination(root, domain, relativePath), aTime, mTime));
    }
  }

  // ---------------------------------------------------------------------
  // Timestamps
  // ---------------------------------------------------------------------

  /** `unix_time in (0, None, '')`, with Python's `==`. */
  predicate IsUnsetTime(v: Value) {
    PyEquals(v, Int(0)) || PyEquals(v, Null) || PyEquals(v, Str(""))
  }

  /** The values taken for "no timestamp": every zero number (False included), None and the empty string. */
  lemma UnsetTimeValues(v: Value)
    ensures IsUnsetTime(v) <==> v == Int(0) || v == Real(0.0) || v == Bool(false) || v == Null || v == Str("")
  {
  }

  /**
   * ReadUnixTime: the five values Python finds in `(0, None, '')` give None;
   * anything else is handed to the datetime conversion, which yields None
   * itself when it fails.
   */
  function ReadUnixTime(raw: Value, toDateTime: Value -> Value): (r: Value)
    ensures raw in {Int(0), Real(0.0), Bool(false), Null, Str("")} ==> r == Null
    ensures raw !in {Int(0), Real(0.0), Bool(false), Null, Str("")} ==> r == toDateTime(raw)
  {
    UnsetTimeValues(raw);
    if IsUnsetTime(raw) then Null else toDateTime(raw)
  }

  // ---------------------------------------------------------------------
  // getFileInfo
  // ---------------------------------------------------------------------

  const ExtendedAttributesKey := "ExtendedAttributes"
  const NsDataKey := "NS.data"

  /**
   * The unwrap step of getFileInfo: a truthy extended-attributes value that
   * is not bytes is replaced by its `NS.data` member. Where that lookup
   * raises (not a dict, no such key) the exception is caught and `info` is
   * left as it was; a non-dict `info` raises already at `info.get`.
   */
  function UnwrapExtendedAttributes(info: Value): Value {
    if !info.Dict? then info
    else
      match GetEntry(info.entries, ExtendedAttributesKey)
      case None => info
      case Some(ea) =>
        if !Truthy(ea) || ea.Data? then info
        else if ea.Dict? && HasKey(ea.entries, NsDataKey) then
          Dict(Assign(info.entries, ExtendedAttributesKey, GetEntry(ea.entries, NsDataKey).value))
        else info
  }

  /**
   * The unwrap keeps every key and every other member; it changes the
   * extended attributes exactly when they are a truthy dict holding
   * `NS.data`, and then to that member. Bytes are never touched.
   */
  lemma UnwrapExtendedAttributesSpec(info: Value)
    requires info.Dict?
    ensures var r := UnwrapExtendedAttributes(info);
      && r.Dict?
      && Keys(r.entries) == Keys(info.entries)
      && (forall k :: k != ExtendedAttributesKey ==> GetEntry(r.entries, k) == GetEntry(info.entries, k))
    ensures var ea := GetEntry(info.entries, ExtendedAttributesKey);
      ea.Some? && ea.value.Dict? && HasKey(ea.value.entries, NsDataKey) ==>
        GetEntry(UnwrapExtendedAttributes(info).entries, ExtendedAttributesKey) == GetEntry(ea.value.entries, NsDataKey)
    ensures var ea := GetEntry(info.entries, ExtendedAttributesKey);
      !(ea.Some? && ea.value.Dict? && HasKey(ea.value.entries, NsDataKey)) ==> UnwrapExtendedAttributes(info) == info
  {
    var ea := GetEntry(info.entries, ExtendedAttributesKey);
    if ea.Some? && ea.value.Dict? && HasKey(ea.value.entries, NsDataKey) {
      assert ea.value.entries != [];
      assert Truthy(ea.value) && !ea.value.Data?;
      var v := GetEntry(ea.value.entries, NsDataKey).value;
      assert UnwrapExtendedAttributes(info) == Dict(Assign(info.entries, ExtendedAttributesKey, v));
      AssignPresent(info.entries, ExtendedAttributesKey, v);
    }
  }

  /** The file metadata getFileInfo returns; an undecodable blob leaves the initial `{}`. */
  function FileInfo(file: Option<Archive>, convert: Converter, depth: nat): Value {
    match file
    case None => Dict([])
    case Some(a) => UnwrapExtendedAttributes(TopLevel(a, convert, depth))
  }

  /**
   * getFileInfo hands back something other than a dict only when the blob
   * decodes to a list: no roots, several roots, a single container root that
   * raised, or a single list root named `root` in some casing.
   */
  lemma FileInfoNotDict(file: Option<Archive>, convert: Converter, depth: nat)
    requires !FileInfo(file, convert, depth).Dict?
    ensures file.Some? && FileInfo(file, convert, depth) == TopLevel(file.value, convert, depth)
    ensures FileInfo(file, convert, depth).Array?
    ensures var a := file.value;
      || |a.roots| != 1
      || (IsContainer(a.roots[0].1) && ResolveContainer(a.roots[0].1, a.objects, convert, depth).Err?)
      || (a.roots[0].1.Array? && IsRootName(a.roots[0].0))
  {
    var a := file.value;
    if |a.roots| == 1 {
      var (name, root) := a.roots[0];
      if IsContainer(root) && RootValue(name, root, a.objects, convert, depth).Ok? && IsRootName(name) {
        assert IsContainer(ResolveContainer(root, a.objects, convert, depth).value);
      }
    }
  }

  /** getFileInfo, with its in-place rebinding of `info['ExtendedAttributes']`. */
  method GetFileInfo(file: Option<Archive>, convert: Converter, depth: nat) returns (info: Value)
    ensures info == FileInfo(file, convert, depth)
  {
    info := Dict([]);
    if file.None? {
      return;
    }
    info := ProcessNsaPlist(file.value, convert, depth);
    if !info.Dict? {
      return;
    }
    var ea := Get(info.entries, ExtendedAttributesKey, Null);
    if Truthy(ea) && !ea.Data? {
      if ea.Dict? && HasKey(ea.entries, NsDataKey) {
        ea := GetEntry(ea.entries, NsDataKey).value;
        info := Dict(Assign(info.entries, ExtendedAttributesKey, ea));
      }
    }
  }

  // ---------------------------------------------------------------------
  // Metadata rows
  // ---------------------------------------------------------------------

  /** One element of an iterable handed to `bytes()`: an int 0..255 (a bool counts as 0 or 1). */
  function ByteOf(v: Value): Option<byte> {
    match v
    case Int(i) => if 0 <= i < 256 then Some(i as byte) else None
    case Bool(b) => Some(if b then 1 else 0)
    case _ => None
  }

  function BytesOf(xs: seq<Value>): (r: Option<seq<byte>>)
    ensures r.Some? ==> |r.value| == |xs| && forall i :: 0 <= i < |xs| ==> ByteOf(xs[i]) == Some(r.value[i])
    ensures r.None? ==> exists i :: 0 <= i < |xs| && ByteOf(xs[i]).None?
    decreases |xs|
  {
    if xs == [] then Some([])
    else
      var last := xs[|xs| - 1];
      match BytesOf(xs[..|xs| - 1])
      case None => None
      case Some(init) =>
        match ByteOf(last)
        case None => None
        case Some(b) => Some(init + [b])
  }

  /**
   * Python's `bytes(ea)`: bytes stay as they are, a non-negative int `n`
   * gives `n` zero bytes, a list gives its elements as bytes; anything else
   * (a negative int, text, a float, a dict, a date) raises.
   */
  function ToBytes(v: Value): Option<seq<byte>> {
    match v
    case Data(b) => Some(b)
    case Int(n) => if n >= 0 then Some(seq(n, _ => 0 as byte)) else None
    case Bool(b) => Some(if b then [0] else [])
    case Array(xs) => BytesOf(xs)
    case _ => None
  }

  /** `bytes(list(b)) == b` and `bytes(b) == b`: bytes survive a round trip through a list of ints. */
  lemma ToBytesRoundTrip(b: seq<byte>)
    ensures ToBytes(Data(b)) == Some(b)
    ensures ToBytes(Array(seq(|b|, i requires 0 <= i < |b| => Int(b[i] as int)))) == Some(b)
  {
    var xs := seq(|b|, i requires 0 <= i < |b| => Int(b[i] as int));
    BytesOfInts(b, xs);
  }

  lemma {:induction false} BytesOfInts(b: seq<byte>, xs: seq<Value>)
    requires |xs| == |b| && forall i :: 0 <= i < |b| ==> xs[i] == Int(b[i] as int)
    ensures BytesOf(xs) == Some(b)
    decreases |b|
  {
    if b != [] {
      BytesOfInts(b[..|b| - 1], xs[..|xs| - 1]);
      assert b[..|b| - 1] + [b[|b| - 1]] == b;
    }
  }

  /** One row of the Metadata table, column by column. */
  datatype MetaRow = MetaRow(
    relativePath: string,
    lastModified: Value,
    lastStatusChange: Value,
    birth: Value,
    size: Value,
    inodeNumber: Value,
    flags: Value,
    userId: Value,
    groupId: Value,
    mode: Value,
    protectionClass: Value,
    extendedAttributes: Value)

  /** The RelativePath column: `domain/relativePath`, or the bare domain for an empty relative path. */
  function DisplayPath(domain: string, relativePath: string): string {
    if relativePath != "" then domain + "/" + relativePath else domain
  }

  lemma DisplayPathBareDomain(domain: string, relativePath: string)
    ensures DisplayPath(domain, relativePath) == domain <==> relativePath == ""
    ensures domain <= DisplayPath(domain, relativePath)
  {
    if relativePath != "" {
      assert |DisplayPath(domain, relativePath)| > |domain|;
    }
  }

  /** The converters and directories the walk is given. */
  datatype Config = Config(sourceDir: string, outputDir: string, convert: Converter, depth: nat, toDateTime: Value -> Value)

  /** The root of the recreated tree. */
  function RecreatedRoot(cfg: Config): string {
    Join(cfg.outputDir, "Recreated_File_Structure")
  }

  /**
   * The row built for an entry whose metadata is `info`; `None` when
   * building it raises: `info` is not a dict (`info.get` fails), or a truthy
   * extended-attributes value cannot be turned into bytes.
   */
  function BuildRow(entry: ManifestEntry, info: Value, toDateTime: Value -> Value): Option<MetaRow> {
    if !info.Dict? then None
    else
      var es := info.entries;
      var ea := Get(es, ExtendedAttributesKey, Null);
      var eaColumn :- if Truthy(ea) then (match ToBytes(ea) case Some(b) => Some(Data(b)) case None => None) else Some(ea);
      Some(MetaRow(
        DisplayPath(entry.domain, entry.relativePath),
        ReadUnixTime(Get(es, "LastModified", Null), toDateTime),
        ReadUnixTime(Get(es, "LastStatusChange", Null), toDateTime),
        ReadUnixTime(Get(es, "Birth", Null), toDateTime),
        Get(es, "Size", Null),
        Get(es, "InodeNumber", Null),
        Get(es, "Flags", Null),
        Get(es, "UserID", Null),
        Get(es, "UserID", Null),
        Get(es, "Mode", Null),
        Get(es, "ProtectionClass", Null),
        eaColumn))
  }

  /** The list literal of lines 222-237, with the `bytes(ea)` conversion before it. */
  method BuildMetaRow(entry: ManifestEntry, info: Value, toDateTime: Value -> Value) returns (row: Option<MetaRow>)
    ensures row == BuildRow(entry, info, toDateTime)
    ensures row.None? <==>
      !info.Dict? || (Truthy(Get(info.entries, ExtendedAttributesKey, Null)) && ToBytes(Get(info.entries, ExtendedAttributesKey, Null)).None?)
    ensures row.Some? ==> info.Dict? && RowColumns(entry, info.entries, row.value)
  {
    BuildRowColumns(entry, info, toDateTime);
    if !info.Dict? {
      return None;
    }
    var es := info.entries;
    var ea := Get(es, ExtendedAttributesKey, Null);
    if Truthy(ea) {
      var b := ToBytes(ea);
      if b.None? {
        return None;
      }
      ea := Data(b.value);
    }
    row := Some(MetaRow(
      DisplayPath(entry.domain, entry.relativePath),
      ReadUnixTime(Get(es, "LastModified", Null), toDateTime),
      ReadUnixTime(Get(es, "LastStatusChange", Null), toDateTime),
      ReadUnixTime(Get(es, "Birth", Null), toDateTime),
      Get(es, "Size", Null),
      Get(es, "InodeNumber", Null),
      Get(es, "Flags", Null),
      Get(es, "UserID", Null),
      Get(es, "UserID", Null),
      Get(es, "Mode", Null),
      Get(es, "ProtectionClass", Null),
      ea));
  }

  /**
   * A built row: the display path, the GroupID column holding the UserID
   * value, unset timestamps as None, and the extended attributes as bytes
   * when truthy, otherwise as they were. Building fails exactly when `info`
   * is not a dict or the truthy attributes have no bytes form.
   */
  lemma BuildRowColumns(entry: ManifestEntry, info: Value, toDateTime: Value -> Value)
    ensures BuildRow(entry, info, toDateTime).None? <==>
      !info.Dict? || (Truthy(Get(info.entries, ExtendedAttributesKey, Null)) && ToBytes(Get(info.entries, ExtendedAttributesKey, Null)).None?)
    ensures BuildRow(entry, info, toDateTime).Some? ==> RowColumns(entry, info.entries, BuildRow(entry, info, toDateTime).value)
  {
  }

  /**
   * The columns of a row built from the metadata `es`: the display path,
   * the GroupID column holding the UserID value, unset timestamps as None,
   * and the extended attributes as bytes when truthy, otherwise as they were.
   */
  predicate RowColumns(entry: ManifestEntry, es: Entries, row: MetaRow) {
    var ea := Get(es, ExtendedAttributesKey, Null);
    && row.relativePath == DisplayPath(entry.domain, entry.relativePath)
    && row.groupId == row.userId == Get(es, "UserID", Null)
    && (IsUnsetTime(Get(es, "LastModified", Null)) ==> row.lastModified == Null)
    && (IsUnsetTime(Get(es, "LastStatusChange", Null)) ==> row.lastStatusChange == Null)
    && (IsUnsetTime(Get(es, "Birth", Null)) ==> row.birth == Null)
    && (Truthy(ea) ==> ToBytes(ea).Some? && row.extendedAttributes == Data(ToBytes(ea).value))
    && (!Truthy(ea) ==> row.extendedAttributes == ea)
  }

  // ---------------------------------------------------------------------
  // Batching
  // ---------------------------------------------------------------------

  /** The buffer is flushed once it holds more than this many rows. */
  const FlushThreshold: nat := 50000
  /** So every flush inside the loop hands over this many rows. */
  const BatchSize: nat := FlushThreshold + 1

  /** The full batches of `n` rows cut from the front of `s`. */
  function FullChunks<T>(s: seq<T>, n: nat): seq<seq<T>>
    requires n > 0
    decreases |s|
  {
    if |s| < n then [] else [s[..n]] + FullChunks(s[n..], n)
  }

  /** `m % n`, counted down without division. */
  function RemLen(m: nat, n: nat): (r: nat)
    requires n > 0
    ensures r < n && r <= m
    decreases m
  {
    if m < n then m else RemLen(m - n, n)
  }

  /** RemLen is the remainder of `m` by `n`. */
  lemma {:induction false} RemLenMod(m: nat, n: nat)
    requires n > 0
    ensures RemLen(m, n) == m % n
    decreases m
  {
    if m >= n {
      RemLenMod(m - n, n);
      ModStep(m, n);
    }
  }

  /** Taking `n` off does not change the remainder modulo `n`. */
  lemma ModStep(m: int, n: int)
    requires n > 0
    ensures (m - n) % n == m % n
  {
    var q, r := m / n, m % n;
    var q', r' := (m - n) / n, (m - n) % n;
    assert (q - 1) * n == q * n - n;
    assert (q - 1 - q') * n == r' - r;
    NonzeroMultiple(q - 1 - q', n);
  }

  /** A nonzero multiple of `n` is at least `n` away from zero. */
  lemma NonzeroMultiple(k: int, n: int)
    requires n > 0
    ensures k == 0 || k * n >= n || k * n <= -n
  {
    if k > 0 {
      PositiveMultiple(k, n);
    } else if k < 0 {
      PositiveMultiple(-k, n);
      assert k * n == -((-k) * n);
    }
  }

  lemma {:induction false} PositiveMultiple(k: int, n: int)
    requires k > 0 && n > 0
    ensures k * n >= n
    decreases k
  {
    if k > 1 {
      PositiveMultiple(k - 1, n);
      assert k * n == (k - 1) * n + n;
    }
  }

  /** The rows not yet in a full batch. */
  function Remainder<T>(s: seq<T>, n: nat): seq<T>
    requires n > 0
  {
    s[|s| - RemLen(|s|, n)..]
  }

  /** All batches: the full ones, then the remainder when it is not empty. */
  function Chunks<T>(s: seq<T>, n: nat): seq<seq<T>>
    requires n > 0
  {
    FullChunks(s, n) + (if RemLen(|s|, n) == 0 then [] else [Remainder(s, n)])
  }

  function Flatten<T>(ss: seq<seq<T>>): seq<T>
    decreases |ss|
  {
    if ss == [] then [] else ss[0] + Flatten(ss[1..])
  }

  lemma {:induction false} FlattenAppend<T>(a: seq<seq<T>>, b: seq<seq<T>>)
    ensures Flatten(a + b) == Flatten(a) + Flatten(b)
    decreases |a|
  {
    if a != [] {
      assert (a + b)[0] == a[0] && (a + b)[1..] == a[1..] + b;
      FlattenAppend(a[1..], b);
      calc {
        Flatten(a + b);
        a[0] + Flatten(a[1..] + b);
        a[0] + (Flatten(a[1..]) + Flatten(b));
        (a[0] + Flatten(a[1..])) + Flatten(b);
      }
    } else {
      assert a + b == b;
    }
  }

  /** The full batches are the rows except the remainder, each exactly `n` long. */
  lemma {:induction false} FullChunksShape<T>(s: seq<T>, n: nat)
    requires n > 0
    ensures Flatten(FullChunks(s, n)) == s[..|s| - RemLen(|s|, n)]
    ensures forall c :: c in FullChunks(s, n) ==> |c| == n
    decreases |s|
  {
    if |s| >= n {
      var t := s[n..];
      FullChunksShape(t, n);
      var fc := FullChunks(s, n);
      assert fc == [s[..n]] + FullChunks(t, n);
      assert fc[0] == s[..n] && fc[1..] == FullChunks(t, n);
      assert Flatten(fc) == s[..n] + Flatten(FullChunks(t, n));
      assert RemLen(|s|, n) == RemLen(|t|, n);
      assert s[..n] + t[..|t| - RemLen(|t|, n)] == s[..|s| - RemLen(|s|, n)];
    }
  }

  /** One more row moves the remainder length on by one, wrapping at `n`. */
  lemma {:induction false} RemLenSucc(m: nat, n: nat)
    requires n > 0
    ensures RemLen(m + 1, n) == if RemLen(m, n) == n - 1 then 0 else RemLen(m, n) + 1
    decreases m
  {
    if m >= n {
      RemLenSucc(m - n, n);
    }
  }

  /** The batches are the full ones, then the remainder when it is not empty. */
  lemma ChunksSplit<T>(s: seq<T>, n: nat)
    requires n > 0
    ensures Chunks(s, n) == FullChunks(s, n) + if Remainder(s, n) == [] then [] else [Remainder(s, n)]
  {
    assert |Remainder(s, n)| == RemLen(|s|, n);
  }

  /**
   * Concatenating the batches gives back every row in order; every batch is
   * non-empty and all but possibly the last are exactly `n` long; no rows,
   * no batches.
   */
  lemma ChunksFlatten<T>(s: seq<T>, n: nat)
    requires n > 0
    ensures Flatten(Chunks(s, n)) == s
    ensures forall i :: 0 <= i < |Chunks(s, n)| ==> 0 < |Chunks(s, n)[i]| <= n
    ensures forall i :: 0 <= i < |Chunks(s, n)| - 1 ==> |Chunks(s, n)[i]| == n
    ensures s == [] <==> Chunks(s, n) == []
  {
    FullChunksShape(s, n);
    ChunksConcat(s, n);
    ChunkSizes(s, n);
    if s != [] && RemLen(|s|, n) == 0 {
      assert |s| >= n;
    }
  }

  lemma ChunksConcat<T>(s: seq<T>, n: nat)
    requires n > 0
    requires Flatten(FullChunks(s, n)) == s[..|s| - RemLen(|s|, n)]
    ensures Flatten(Chunks(s, n)) == s
  {
    var k := |s| - RemLen(|s|, n);
    if k == |s| {
      assert Chunks(s, n) == FullChunks(s, n) + [] == FullChunks(s, n);
      assert s[..k] == s;
    } else {
      var tail := [s[k..]];
      assert Chunks(s, n) == FullChunks(s, n) + tail;
      FlattenAppend(FullChunks(s, n), tail);
      FlattenOne(s[k..]);
      assert s[..k] + s[k..] == s;
    }
  }

  lemma FlattenOne<T>(x: seq<T>)
    ensures Flatten([x]) == x
  {
    assert [x][1..] == [];
  }

  lemma ChunkSizes<T>(s: seq<T>, n: nat)
    requires n > 0
    requires forall c :: c in FullChunks(s, n) ==> |c| == n
    ensures forall i :: 0 <= i < |Chunks(s, n)| ==> 0 < |Chunks(s, n)[i]| <= n
    ensures forall i :: 0 <= i < |Chunks(s, n)| - 1 ==> |Chunks(s, n)[i]| == n
  {
    forall i | 0 <= i < |Chunks(s, n)| ensures 0 < |Chunks(s, n)[i]| <= n {
      if i < |FullChunks(s, n)| {
        assert Chunks(s, n)[i] in FullChunks(s, n);
      }
    }
    forall i | 0 <= i < |Chunks(s, n)| - 1 ensures |Chunks(s, n)[i]| == n {
      assert Chunks(s, n)[i] in FullChunks(s, n);
    }
  }


  /** One more row joins the remainder, which empties when it reaches `n` rows. */
  lemma RemainderSnoc<T>(s: seq<T>, x: T, n: nat)
    requires n > 0
    ensures RemLen(|s + [x]|, n) == (if RemLen(|s|, n) == n - 1 then 0 else RemLen(|s|, n) + 1)
    ensures Remainder(s + [x], n) == if RemLen(|s|, n) == n - 1 then [] else Remainder(s, n) + [x]
  {
    RemLenSucc(|s|, n);
    var r := RemLen(|s|, n);
    if r != n - 1 {
      assert (s + [x])[|s| - r..] == s[|s| - r..] + [x];
    }
  }

  /** One more row: when the remainder reaches `n` rows it becomes a new full batch. */
  lemma {:induction false} FullChunksSnoc<T>(s: seq<T>, x: T, n: nat)
    requires n > 0
    ensures FullChunks(s + [x], n) ==
      if RemLen(|s|, n) == n - 1 then FullChunks(s, n) + [Remainder(s, n) + [x]] else FullChunks(s, n)
    decreases |s|
  {
    if |s| >= n {
      assert (s + [x])[n..] == s[n..] + [x];
      assert (s + [x])[..n] == s[..n];
      FullChunksSnoc(s[n..], x, n);
      assert Remainder(s, n) == Remainder(s[n..], n);
    } else if |s| == n - 1 {
      assert (s + [x])[n..] == [];
      assert (s + [x])[..n] == s + [x];
    }
  }

  /** The buffer after `rows`: `flushed` are the full batches handed over, `buffer` the rest. */
  ghost predicate Batched(rows: seq<MetaRow>, flushed: seq<seq<MetaRow>>, buffer: seq<MetaRow>) {
    flushed == FullChunks(rows, BatchSize) && buffer == Remainder(rows, BatchSize)
  }

  /** Appending a row, then flushing a buffer that has grown past the threshold, keeps the batching state. */
  lemma BatchStep(rows: seq<MetaRow>, flushed: seq<seq<MetaRow>>, buffer: seq<MetaRow>, x: MetaRow)
    requires Batched(rows, flushed, buffer)
    ensures |buffer + [x]| > FlushThreshold ==> Batched(rows + [x], flushed + [buffer + [x]], [])
    ensures |buffer + [x]| <= FlushThreshold ==> Batched(rows + [x], flushed, buffer + [x])
  {
    RemainderSnoc(rows, x, BatchSize);
    FullChunksSnoc(rows, x, BatchSize);
  }

  /** The Metadata database: the batches WriteMetaDataToDb has inserted, in order. */
  class MetadataDb {
    var batches: seq<seq<MetaRow>>

    constructor ()
      ensures batches == []
    {
      batches := [];
    }

    /** WriteMetaDataToDb: one executemany over the whole buffer. */
    method WriteMetaData(rows: seq<MetaRow>)
      modifies this
      ensures batches == old(batches) + [rows]
    {
      batches := batches + [rows];
    }
  }

  // ---------------------------------------------------------------------
  // readManiDb
  // ---------------------------------------------------------------------

  function EntryInfo(e: ManifestEntry, cfg: Config): Value {
    FileInfo(e.file, cfg.convert, cfg.depth)
  }

  function EntryRow(e: ManifestEntry, cfg: Config): Option<MetaRow> {
    BuildRow(e, EntryInfo(e, cfg), cfg.toDateTime)
  }

  /** The actions recreate requests for an entry, with the defaults of 0 for missing times. */
  function EntryActions(e: ManifestEntry, cfg: Config): seq<FsAction> {
    var info := EntryInfo(e, cfg);
    var es := if info.Dict? then info.entries else [];
    RecreateActions(e.fileId, e.domain, e.relativePath, e.fileType, RecreatedRoot(cfg), cfg.sourceDir,
                    Get(es, "LastStatusChange", Int(0)), Get(es, "LastModified", Int(0)))
  }

  /** The row each entry would give, in manifest order. */
  function RowsOf(entries: seq<ManifestEntry>, cfg: Config): (r: seq<Option<MetaRow>>)
    ensures |r| == |entries|
  {
    seq(|entries|, i requires 0 <= i < |entries| => EntryRow(entries[i], cfg))
  }

  /** The actions each entry would give, in manifest order. */
  function ActionsOf(entries: seq<ManifestEntry>, cfg: Config): (r: seq<seq<FsAction>>)
    ensures |r| == |entries|
  {
    seq(|entries|, i requires 0 <= i < |entries| => EntryActions(entries[i], cfg))
  }

  /** The values present before the first `None`. */
  function LeadingSome<T>(xs: seq<Option<T>>): (r: seq<T>)
    ensures |r| <= |xs|
    decreases |xs|
  {
    if xs == [] then []
    else
      var init := LeadingSome(xs[..|xs| - 1]);
      if |init| == |xs| - 1 && xs[|xs| - 1].Some? then init + [xs[|xs| - 1].value] else init
  }

  /** The leading values are those of the first elements, and they stop only at a `None`. */
  lemma {:induction false} LeadingSomePrefix<T>(xs: seq<Option<T>>)
    ensures var r := LeadingSome(xs);
      && (forall i :: 0 <= i < |r| ==> xs[i] == Some(r[i]))
      && (|r| < |xs| ==> xs[|r|].None?)
    decreases |xs|
  {
    if xs != [] {
      var init := xs[..|xs| - 1];
      LeadingSomePrefix(init);
      assert forall i :: 0 <= i < |init| ==> init[i] == xs[i];
    }
  }

  lemma {:induction false} LeadingSomeStop<T>(xs: seq<Option<T>>, k: nat)
    requires k < |xs|
    requires |LeadingSome(xs[..k])| == k
    requires xs[k].None?
    ensures LeadingSome(xs) == LeadingSome(xs[..k])
    decreases |xs|
  {
    if |xs| == k + 1 {
      assert xs[..|xs| - 1] == xs[..k];
    } else {
      var init := xs[..|xs| - 1];
      assert init[..k] == xs[..k] && init[k] == xs[k];
      LeadingSomeStop(init, k);
    }
  }

  lemma LeadingSomeStep<T>(xs: seq<Option<T>>, k: nat, x: T)
    requires k < |xs|
    requires |LeadingSome(xs[..k])| == k
    requires xs[k] == Some(x)
    ensures LeadingSome(xs[..k + 1]) == LeadingSome(xs[..k]) + [x]
  {
    assert xs[..k + 1][..k] == xs[..k];
  }

  /** `log` is `prefix` followed by the actions of the first `k` entries. */
  ghost predicate Logged<T>(log: seq<T>, prefix: seq<T>, ss: seq<seq<T>>, k: nat)
    requires k <= |ss|
  {
    log == prefix + Flatten(ss[..k])
  }

  lemma FlattenStep<T>(prefix: seq<T>, ss: seq<seq<T>>, k: nat, log: seq<T>, log': seq<T>)
    requires k < |ss|
    requires Logged(log, prefix, ss, k)
    requires log' == log + ss[k]
    ensures Logged(log', prefix, ss, k + 1)
  {
    assert ss[..k + 1] == ss[..k] + [ss[k]];
    FlattenAppend(ss[..k], [ss[k]]);
    assert Flatten([ss[k]]) == ss[k] + Flatten([]);
  }

  /**
   * One pass of the loop of readManiDb: decode the metadata, build and
   * buffer the row, flush the buffer once it holds more than 50000 rows,
   * then recreate the entry. `row` is `None` when building it raised, before
   * the buffer or the tree were touched.
   */
  method ReadEntry(entry: ManifestEntry, cfg: Config, root: string, db: MetadataDb, tree: OutputTree, buffer: seq<MetaRow>)
    returns (row: Option<MetaRow>, buffer': seq<MetaRow>)
    requires root == RecreatedRoot(cfg)
    modifies db, tree
    ensures row == EntryRow(entry, cfg)
    ensures row.None? ==> db.batches == old(db.batches) && tree.actions == old(tree.actions)
    ensures row.Some? && |buffer + [row.value]| > FlushThreshold ==>
      db.batches == old(db.batches) + [buffer + [row.value]] && buffer' == []
    ensures row.Some? && |buffer + [row.value]| <= FlushThreshold ==>
      db.batches == old(db.batches) && buffer' == buffer + [row.value]
    ensures row.Some? ==> tree.actions == old(tree.actions) + EntryActions(entry, cfg)
  {
    var info := GetFileInfo(entry.file, cfg.convert, cfg.depth);
    row := BuildMetaRow(entry, info, cfg.toDateTime);
    if row.None? {
      return row, buffer;
    }
    buffer' := buffer + [row.value];
    if |buffer'| > FlushThreshold {
      db.WriteMetaData(buffer');
      buffer' := [];
    }
    var es := info.entries;
    Recreate(tree, entry.fileId, entry.domain, entry.relativePath, entry.fileType, root, cfg.sourceDir,
             Get(es, "LastStatusChange", Int(0)), Get(es, "LastModified", Int(0)));
  }

  /**
   * readManiDb: creates the recreated root, then for each entry builds its
   * row, buffers it, flushes the buffer when it holds more than 50000 rows,
   * and recreates the entry; finally flushes a non-empty buffer. An entry
   * whose row cannot be built raises out of the loop (`crashed`): the rows
   * still buffered are lost and the later entries are not visited.
   */
  method ReadManiDb(entries: seq<ManifestEntry>, cfg: Config, db: MetadataDb, tree: OutputTree)
    returns (processed: nat, crashed: bool)
    modifies db, tree
    ensures processed == |LeadingSome(RowsOf(entries, cfg))|
    ensures crashed <==> processed < |entries|
    ensures !crashed ==> db.batches == old(db.batches) + Chunks(LeadingSome(RowsOf(entries, cfg)), BatchSize)
    ensures crashed ==> db.batches == old(db.batches) + FullChunks(LeadingSome(RowsOf(entries, cfg)), BatchSize)
    ensures tree.actions == old(tree.actions) + [CreateFolder(RecreatedRoot(cfg))] + Flatten(ActionsOf(entries, cfg)[..processed])
  {
    var root := Join(cfg.outputDir, "Recreated_File_Structure");
    tree.Perform(CreateFolder(root));
    var fileMetaList;
    ghost var batchesBefore := db.batches;
    processed, crashed, fileMetaList := ReadEntries(entries, cfg, root, db, tree);
    ghost var rows := LeadingSome(RowsOf(entries, cfg));
    ChunksSplit(rows, BatchSize);
    if !crashed && |fileMetaList| > 0 {
      ghost var full := db.batches;
      db.WriteMetaData(fileMetaList);
      assert db.batches == full + [fileMetaList];
      assert batchesBefore + (FullChunks(rows, BatchSize) + [fileMetaList]) == (batchesBefore + FullChunks(rows, BatchSize)) + [fileMetaList];
    }
  }

  /** One entry of the walk whose row could be built keeps the loop's bookkeeping of rows, batches and actions. */
  lemma WalkStep(built: seq<Option<MetaRow>>, acts: seq<seq<FsAction>>, i: nat,
                 flushed: seq<seq<MetaRow>>, buffer: seq<MetaRow>, x: MetaRow, buffer': seq<MetaRow>,
                 base: seq<seq<MetaRow>>, batches: seq<seq<MetaRow>>, batches': seq<seq<MetaRow>>,
                 prefix: seq<FsAction>, log: seq<FsAction>, log': seq<FsAction>)
    requires i < |built| && i < |acts|
    requires |LeadingSome(built[..i])| == i
    requires Batched(LeadingSome(built[..i]), flushed, buffer)
    requires batches == base + flushed
    requires Logged(log, prefix, acts, i)
    requires built[i] == Some(x)
    requires |buffer + [x]| > FlushThreshold ==> batches' == batches + [buffer + [x]] && buffer' == []
    requires |buffer + [x]| <= FlushThreshold ==> batches' == batches && buffer' == buffer + [x]
    requires log' == log + acts[i]
    ensures var flushed' := if buffer' == [] then flushed + [buffer + [x]] else flushed;
      && |LeadingSome(built[..i + 1])| == i + 1
      && Batched(LeadingSome(built[..i + 1]), flushed', buffer')
      && batches' == base + flushed'
      && Logged(log', prefix, acts, i + 1)
  {
    BatchStep(LeadingSome(built[..i]), flushed, buffer, x);
    LeadingSomeStep(built, i, x);
    if buffer' == [] {
      assert base + (flushed + [buffer + [x]]) == (base + flushed) + [buffer + [x]];
    }
    FlattenStep(prefix, acts, i, log, log');
  }

  /**
   * The loop of readManiDb over the `files` rows. It stops at the first
   * entry whose row cannot be built and leaves the unflushed rows in the
   * returned buffer.
   */
  method ReadEntries(entries: seq<ManifestEntry>, cfg: Config, root: string, db: MetadataDb, tree: OutputTree)
    returns (processed: nat, crashed: bool, fileMetaList: seq<MetaRow>)
    requires root == RecreatedRoot(cfg)
    modifies db, tree
    ensures processed == |LeadingSome(RowsOf(entries, cfg))|
    ensures crashed <==> processed < |entries|
    ensures db.batches == old(db.batches) + FullChunks(LeadingSome(RowsOf(entries, cfg)), BatchSize)
    ensures fileMetaList == Remainder(LeadingSome(RowsOf(entries, cfg)), BatchSize)
    ensures Logged(tree.actions, old(tree.actions), ActionsOf(entries, cfg), processed)
  {
    ghost var built := RowsOf(entries, cfg);
    ghost var acts := ActionsOf(entries, cfg);
    fileMetaList := [];
    ghost var flushed: seq<seq<MetaRow>> := [];
    var i := 0;
    while i < |entries|
      invariant 0 <= i <= |entries|
      invariant |LeadingSome(built[..i])| == i
      invariant Batched(LeadingSome(built[..i]), flushed, fileMetaList)
      invariant db.batches == old(db.batches) + flushed
      invariant Logged(tree.actions, old(tree.actions), acts, i)
    {
      ghost var before, batchesBefore := tree.actions, db.batches;
      var row, buffer := ReadEntry(entries[i], cfg, root, db, tree, fileMetaList);
      if row.None? {
        LeadingSomeStop(built, i);
        return i, true, fileMetaList;
      }
      WalkStep(built, acts, i, flushed, fileMetaList, row.value, buffer,
               old(db.batches), batchesBefore, db.batches, old(tree.actions), before, tree.actions);
      flushed := if buffer == [] then flushed + [fileMetaList + [row.value]] else flushed;
      fileMetaList := buffer;
      i := i + 1;
    }
    assert built[..i] == built;
    return i, false, fileMetaList;
  }

  /**
   * The rows of a walk are those of the first entries, in manifest order,
   * and it stops early exactly at an entry whose row cannot be built; the
   * batches it writes then concatenate to those rows when it completes.
   */
  lemma ReadManiDbRows(entries: seq<ManifestEntry>, cfg: Config)
    ensures var rows := LeadingSome(RowsOf(entries, cfg));
      && (forall i :: 0 <= i < |rows| ==> EntryRow(entries[i], cfg) == Some(rows[i]))
      && (|rows| < |entries| ==> EntryRow(entries[|rows|], cfg).None?)
      && Flatten(Chunks(rows, BatchSize)) == rows
  {
    LeadingSomePrefix(RowsOf(entries, cfg));
    ChunksFlatten(LeadingSome(RowsOf(entries, cfg)), BatchSize);
  }
}
