/**
 * The descriptor-plist projection of helpers/plist_parser.py: the 18-column
 * backup summary built from Info.plist, Manifest.plist and Status.plist,
 * the 12-column rows of the applications Info.plist describes, and the
 * "N/A" rows of the applications that only Manifest.plist lists.
 *
 * The plists arrive decoded. `readPlistFromString`, `sinfHelper` and
 * `frpdHelper` are parameters, each `None` where it raises. A Python
 * exception is `None`; readPlists does not catch any, so one raised anywhere
 * makes the whole result `None`.
 */
module PlistParser {
  import opened PlistValue

  /** The foreign decoders readApps and backupReader call. */
  datatype Helpers = Helpers(
    readPlistFromString: Value -> Option<Value>,
    sinf: Value -> Option<Value>,
    frpd: Value -> Option<Value>)

  const Blank := Str("")
  const NotAvailable := Str("N/A")

  /** `d.get(key, default)` on a value that may not be a dict; anything else raises AttributeError. */
  function Lookup(d: Value, key: string, default: Value): (r: Option<Value>)
    ensures r.Some? <==> d.Dict?
    ensures d.Dict? && !HasKey(d.entries, key) ==> r == Some(default)
    ensures d.Dict? && HasKey(d.entries, key) ==> r == GetEntry(d.entries, key)
  {
    if d.Dict? then Some(Get(d.entries, key, default)) else None
  }

  /** `f` over `xs` in order, or `None` as soon as one application raises. */
  function MapAll<T, R>(xs: seq<T>, f: T -> Option<R>): Option<seq<R>>
    decreases |xs|
  {
    if xs == [] then Some([])
    else
      var init :- MapAll(xs[..|xs| - 1], f);
      var y :- f(xs[|xs| - 1]);
      Some(init + [y])
  }

  /** `MapAll` succeeds exactly when every application does, and then holds their results in order. */
  lemma {:induction false} MapAllPointwise<T, R>(xs: seq<T>, f: T -> Option<R>)
    ensures MapAll(xs, f).Some? <==> forall i :: 0 <= i < |xs| ==> f(xs[i]).Some?
    ensures MapAll(xs, f).Some? ==>
      var ys := MapAll(xs, f).value;
      |ys| == |xs| && forall i :: 0 <= i < |xs| ==> f(xs[i]) == Some(ys[i])
    decreases |xs|
  {
    if xs != [] {
      var init := xs[..|xs| - 1];
      MapAllPointwise(init, f);
      assert forall i :: 0 <= i < |init| ==> init[i] == xs[i];
    }
  }

  /** An application that raises makes the whole map raise, whatever follows it. */
  lemma MapAllStops<T, R>(xs: seq<T>, k: nat, f: T -> Option<R>)
    requires k < |xs| && f(xs[k]).None?
    ensures MapAll(xs, f).None?
  {
    MapAllPointwise(xs, f);
  }

  // ---------------------------------------------------------------------
  // backupReader
  // ---------------------------------------------------------------------

  /** `user_comps`: the FRPD helper's reading of a truthy `iTunesPrefs`, else the empty string. */
  function UserComps(info: Entries, frpd: Value -> Option<Value>): Option<Value> {
    var binaryFrpd :- Lookup(Get(info, "iTunes Files", Dict([])), "iTunesPrefs", Blank);
    if Truthy(binaryFrpd) then frpd(binaryFrpd) else Some(Blank)
  }

  /**
   * backupReader; `None` when `iTunes Files` or `Lockdown` is not a dict and
   * its `.get` raises, or when `frpdHelper` raises.
   */
  function BackupReader(info: Entries, manifest: Entries, status: Option<Entries>, frpd: Value -> Option<Value>): Option<seq<Value>> {
    var userComps :- UserComps(info, frpd);
    var lockdown := Get(manifest, "Lockdown", Dict([]));
    if !lockdown.Dict? then None
    else Some(BackupRow(info, manifest, status, lockdown.entries, userComps))
  }

  /** Where a backup-summary column comes from. */
  datatype Column =
    | InfoField(key: string)
    | ManifestField(key: string)
    | LockdownField(key: string)
    | StatusField(key: string)
    | UserCompsField

  /** The number of backup-summary columns. */
  const ColumnCount := 18

  /** The backup-summary columns, in report order. */
  function BackupColumn(i: nat): Column
    requires i < ColumnCount
  {
    match i
    case 0 => InfoField("Device Name")
    case 1 => InfoField("Product Name")
    case 2 => InfoField("Product Type")
    case 3 => InfoField("Phone Number")
    case 4 => LockdownField("ProductVersion")
    case 5 => StatusField("Date")
    case 6 => InfoField("Last Backup Date")
    case 7 => UserCompsField
    case 8 => ManifestField("WasPasscodeSet")
    case 9 => ManifestField("IsEncrypted")
    case 10 => InfoField("GUID")
    case 11 => InfoField("ICCID")
    case 12 => InfoField("IMEI")
    case 13 => InfoField("MEID")
    case 14 => InfoField("Serial Number")
    case 15 => StatusField("IsFullBackup")
    case 16 => StatusField("Version")
    case _ => InfoField("iTunes Version")
  }

  /** The dict a column reads its key from; `None` for a status column without a Status.plist. */
  function ColumnSource(c: Column, info: Entries, manifest: Entries, status: Option<Entries>, lockdown: Entries): Option<Entries>
    requires !c.UserCompsField?
  {
    match c
    case InfoField(_) => Some(info)
    case ManifestField(_) => Some(manifest)
    case LockdownField(_) => Some(lockdown)
    case StatusField(_) => status
  }

  /** A column's value: its key in its source dict, `''` when the key or the source is missing. */
  function ColumnValue(c: Column, info: Entries, manifest: Entries, status: Option<Entries>, lockdown: Entries, userComps: Value): Value {
    if c.UserCompsField? then userComps
    else
      var src := ColumnSource(c, info, manifest, status, lockdown);
      if src.None? then Blank else Get(src.value, c.key, Blank)
  }

  /** The list backupReader returns, once `lockdown` and `user_comps` are known: the column table read against the plists. */
  function BackupRow(info: Entries, manifest: Entries, status: Option<Entries>, lockdown: Entries, userComps: Value): seq<Value> {
    seq(ColumnCount, i requires 0 <= i < ColumnCount => ColumnValue(BackupColumn(i), info, manifest, status, lockdown, userComps))
  }

  /**
   * backupReader raises exactly when the user column raises (see
   * `UserCompsCases`) or `Lockdown` is present but not a dict. Otherwise it
   * returns 18 values: in each column the column's key from its source dict,
   * `''` when the key is missing or the column is a status column and there
   * is no Status.plist, and in the user column the FRPD reading.
   */
  lemma BackupReaderColumns(info: Entries, manifest: Entries, status: Option<Entries>, frpd: Value -> Option<Value>)
    ensures BackupReader(info, manifest, status, frpd).None? <==>
      UserComps(info, frpd).None? || !Get(manifest, "Lockdown", Dict([])).Dict?
    ensures var r := BackupReader(info, manifest, status, frpd);
      r.Some? ==>
        var lockdown := Get(manifest, "Lockdown", Dict([])).entries;
        && UserComps(info, frpd).Some?
        && |r.value| == ColumnCount
        && forall i :: 0 <= i < ColumnCount ==>
             var c := BackupColumn(i);
             if c.UserCompsField? then r.value[i] == UserComps(info, frpd).value
             else
               var src := ColumnSource(c, info, manifest, status, lockdown);
               && (src.None? || !HasKey(src.value, c.key) ==> r.value[i] == Blank)
               && (src.Some? && HasKey(src.value, c.key) ==> Some(r.value[i]) == GetEntry(src.value, c.key))
  {
  }

  /** Without a Status.plist the backup date, full-backup flag and version columns are `''`; the eighth is the user column. */
  lemma BackupReaderNoStatus(info: Entries, manifest: Entries, frpd: Value -> Option<Value>)
    requires BackupReader(info, manifest, None, frpd).Some?
    ensures var r := BackupReader(info, manifest, None, frpd).value;
      r[5] == Blank && r[15] == Blank && r[16] == Blank && r[7] == UserComps(info, frpd).value
  {
    BackupRowNoStatus(info, manifest, Get(manifest, "Lockdown", Dict([])).entries, UserComps(info, frpd).value);
  }

  lemma BackupRowNoStatus(info: Entries, manifest: Entries, lockdown: Entries, userComps: Value)
    ensures var row := BackupRow(info, manifest, None, lockdown, userComps);
      row[5] == Blank && row[15] == Blank && row[16] == Blank && row[7] == userComps
  {
  }

  /**
   * The user column is `''` when `iTunesPrefs` is absent or falsy, and the
   * FRPD reading otherwise; it raises when `iTunes Files` is not a dict or
   * the FRPD helper raises on a truthy `iTunesPrefs`.
   */
  lemma UserCompsCases(info: Entries, frpd: Value -> Option<Value>)
    ensures UserComps(info, frpd).None? <==>
      || !Get(info, "iTunes Files", Dict([])).Dict?
      || (var binaryFrpd := Get(Get(info, "iTunes Files", Dict([])).entries, "iTunesPrefs", Blank);
          Truthy(binaryFrpd) && frpd(binaryFrpd).None?)
    ensures UserComps(info, frpd).Some? ==>
      var binaryFrpd := Get(Get(info, "iTunes Files", Dict([])).entries, "iTunesPrefs", Blank);
      UserComps(info, frpd).value == if Truthy(binaryFrpd) then frpd(binaryFrpd).value else Blank
    ensures UserComps(info, frpd).Some? && !HasKey(Get(info, "iTunes Files", Dict([])).entries, "iTunesPrefs") ==>
      UserComps(info, frpd) == Some(Blank)
  {
  }

  // ---------------------------------------------------------------------
  // readApps
  // ---------------------------------------------------------------------

  /** The decoded `iTunesMetadata` of an app and the two dicts nested in it. */
  datatype AppMetadata = AppMetadata(itunes: Entries, downloadInfo: Entries, accountInfo: Entries)

  /**
   * Decodes an app's `iTunesMetadata`; `None` when it does not decode or
   * when it, its download info or its account info is not a dict (the next
   * `.get` raises).
   */
  function ReadMetadata(app: Entries, h: Helpers): Option<AppMetadata> {
    var itunes :- h.readPlistFromString(Get(app, "iTunesMetadata", Dict([])));
    if !itunes.Dict? then None
    else
      var downloadInfo := Get(itunes.entries, "com.apple.iTunesStore.downloadInfo", Dict([]));
      if !downloadInfo.Dict? then None
      else
        var accountInfo := Get(downloadInfo.entries, "accountInfo", Dict([]));
        if !accountInfo.Dict? then None
        else Some(AppMetadata(itunes.entries, downloadInfo.entries, accountInfo.entries))
  }

  /** The name `sinfHelper` reads from an app's SINF; `None` when it raises. */
  function AppOwner(app: Entries, h: Helpers): Option<Value> {
    h.sinf(Get(app, "ApplicationSINF", Dict([])))
  }

  /** The twelve-field tuple of the applications report, field by field in column order. */
  datatype AppTuple = AppTuple(
    deviceName: Value, serialNumber: Value, appName: Value, appleId: Value,
    owner: Value, purchaseDate: Value, sideloaded: Value, bundleVersion: Value,
    autoDownload: Value, purchasedRedownload: Value, artistName: Value, bundleId: Value)

  /**
   * readApps on one app: `None` when the app is not a dict, when its metadata
   * does not read, when `sinfHelper` raises, and when it looks sideloaded but
   * its `itemName` is not text (the debug message concatenates it).
   */
  function AppRow(info: Entries, app: Value, h: Helpers): Option<AppTuple> {
    if !app.Dict? then None
    else
      var m :- ReadMetadata(app.entries, h);
      var name :- AppOwner(app.entries, h);
      var sideloaded := name == Blank;
      if sideloaded && !Get(m.itunes, "itemName", Blank).Str? then None
      else
        Some(AppTuple(
          Get(info, "Device Name", Blank),
          Get(info, "Serial Number", Blank),
          Get(m.itunes, "itemName", Blank),
          Get(m.accountInfo, "AppleID", Blank),
          name,
          Get(m.downloadInfo, "purchaseDate", Blank),
          Bool(sideloaded),
          Get(m.itunes, "bundleVersion", Blank),
          Get(m.itunes, "is-auto-download", Blank),
          Get(m.itunes, "is-purchased-redownload", Blank),
          Get(m.itunes, "artistName", Blank),
          Get(m.itunes, "softwareVersionBundleId", Blank)))
  }

  /**
   * An app has a tuple exactly when it is a dict whose metadata reads, whose
   * SINF owner reads, and which is not a sideloaded app with a non-text name.
   * The tuple's sideloaded flag is `True` exactly when the SINF owner is the
   * empty string, and then its app name is text.
   */
  lemma AppRowRaises(info: Entries, app: Value, h: Helpers)
    ensures AppRow(info, app, h).Some? <==>
      && app.Dict?
      && ReadMetadata(app.entries, h).Some?
      && AppOwner(app.entries, h).Some?
      && (AppOwner(app.entries, h).value == Blank ==> Get(ReadMetadata(app.entries, h).value.itunes, "itemName", Blank).Str?)
    ensures AppRow(info, app, h).Some? ==>
      var row := AppRow(info, app, h).value;
      && Some(row.owner) == AppOwner(app.entries, h)
      && row.sideloaded == Bool(row.owner == Blank)
      && (row.owner == Blank ==> row.appName.Str?)
  {
  }

  /** The tuples of all apps, in the dict's order, or `None` when one of them raises. */
  function AppRows(apps: Entries, info: Entries, h: Helpers): Option<seq<AppTuple>> {
    MapAll(apps, (e: (string, Value)) => AppRow(info, e.1, h))
  }

  /** One tuple per app, tuple i from app i, and no result at all if any app raises. */
  lemma AppRowsPointwise(apps: Entries, info: Entries, h: Helpers)
    ensures AppRows(apps, info, h).Some? <==>
      forall i :: 0 <= i < |apps| ==> AppRow(info, apps[i].1, h).Some?
    ensures AppRows(apps, info, h).Some? ==>
      var rows := AppRows(apps, info, h).value;
      |rows| == |apps| && forall i :: 0 <= i < |apps| ==> AppRow(info, apps[i].1, h) == Some(rows[i])
  {
    MapAllPointwise(apps, (e: (string, Value)) => AppRow(info, e.1, h));
  }

  /** readApps: one tuple appended per app, in iteration order. */
  method ReadApps(apps: Entries, info: Entries, h: Helpers) returns (appDict: Option<seq<AppTuple>>)
    ensures appDict == AppRows(apps, info, h)
  {
    var rows: seq<AppTuple> := [];
    var i := 0;
    while i < |apps|
      invariant 0 <= i <= |apps|
      invariant AppRows(apps[..i], info, h) == Some(rows)
    {
      assert apps[..i + 1][..i] == apps[..i];
      var app := apps[i].1;
      var row := AppRow(info, app, h);
      if row.None? {
        MapAllStops(apps, i, (e: (string, Value)) => AppRow(info, e.1, h));
        return None;
      }
      rows := rows + [row.value];
      i := i + 1;
    }
    assert apps[..i] == apps;
    return Some(rows);
  }

  // ---------------------------------------------------------------------
  // readPlists
  // ---------------------------------------------------------------------

  /**
   * The names `for app in allApps` visits, where the Info.plist
   * `Applications` value lets readPlists go on: a dict (its keys), or an
   * empty text, list or bytes value (nothing). Iterating any other value
   * raises; a non-empty text, list or bytes value is iterated, but readApps
   * then raises on it, so the result is lost either way.
   */
  function InfoAppKeys(allApps: Value): Option<seq<string>> {
    match allApps
    case Dict(es) => Some(Keys(es))
    case Str(s) => if s == "" then Some([]) else None
    case Array(xs) => if xs == [] then Some([]) else None
    case Data(b) => if b == [] then Some([]) else None
    case _ => None
  }

  /** The dict after `d.pop(k)` for each `k` of `keys` that it holds, in order. */
  function WithoutKeys(es: Entries, keys: seq<string>): Entries
    decreases |keys|
  {
    if keys == [] then es
    else
      var r := WithoutKeys(es, keys[..|keys| - 1]);
      var k := keys[|keys| - 1];
      if HasKey(r, k) then RemoveKey(r, k) else r
  }

  /**
   * After the duplicate removal no listed key is left, every other key
   * keeps its value, and nothing is added.
   */
  lemma {:induction false} WithoutKeysSpec(es: Entries, keys: seq<string>, k: string)
    ensures GetEntry(WithoutKeys(es, keys), k) == if k in keys then None else GetEntry(es, k)
    ensures |WithoutKeys(es, keys)| <= |es|
    decreases |keys|
  {
    if keys != [] {
      var init := keys[..|keys| - 1];
      WithoutKeysSpec(es, init, k);
      assert keys == init + [keys[|keys| - 1]];
      assert k in keys <==> k in init || k == keys[|keys| - 1];
    }
  }

  /** The duplicate removal keeps the remaining keys in their Manifest.plist order. */
  lemma {:induction false} WithoutKeysOrder(es: Entries, keys: seq<string>)
    ensures Keys(WithoutKeys(es, keys)) == Omit(Keys(es), keys)
    decreases |keys|
  {
    if keys == [] {
      OmitAbsent(Keys(es), "");
    } else {
      var init, last := keys[..|keys| - 1], keys[|keys| - 1];
      assert keys == init + [last];
      var r := WithoutKeys(es, init);
      WithoutKeysOrder(es, init);
      OmitAbsent(Keys(r), last);
      OmitThen(Keys(es), init, last);
      assert Keys(WithoutKeys(es, keys)) == Omit(Keys(r), [last]);
    }
  }

  /** The duplicate-removal loop of readPlists, popping from the Manifest.plist dict in place. */
  method RemoveDuplicateApps(notDetailedApps: Container, keys: seq<string>)
    requires notDetailedApps.contents.Dict?
    modifies notDetailedApps
    ensures notDetailedApps.contents == Dict(WithoutKeys(old(notDetailedApps.contents).entries, keys))
  {
    var i := 0;
    while i < |keys|
      invariant 0 <= i <= |keys|
      invariant notDetailedApps.contents == Dict(WithoutKeys(old(notDetailedApps.contents).entries, keys[..i]))
    {
      assert keys[..i + 1][..i] == keys[..i];
      if notDetailedApps.Contains(keys[i]) {
        var _ := notDetailedApps.Pop(keys[i]);
      }
      i := i + 1;
    }
    assert keys[..i] == keys;
  }

  /**
   * What is left of the Manifest.plist `Applications` value after the
   * removal loop, as a dict to iterate. An empty text value matches only the
   * empty name, whose pop then raises; an empty list matches nothing; an
   * empty bytes value raises on any name. Other non-dict values raise in the
   * loop or in the comprehension that follows it.
   */
  function RemainingApps(notDetailed: Value, keys: seq<string>): Option<Entries> {
    match notDetailed
    case Dict(es) => Some(WithoutKeys(es, keys))
    case Str(s) => if s == "" && "" !in keys then Some([]) else None
    case Array(xs) => if xs == [] then Some([]) else None
    case Data(b) => if b == [] && keys == [] then Some([]) else None
    case _ => None
  }

  /** A not-detailed tuple; `app['CFBundleIdentifier']` raises unless the app is a dict holding that key. */
  function NotDetailedRow(app: Value): Option<AppTuple> {
    if app.Dict? && HasKey(app.entries, "CFBundleIdentifier") then
      var id := GetEntry(app.entries, "CFBundleIdentifier").value;
      Some(AppTuple(NotAvailable, NotAvailable, id, NotAvailable, NotAvailable, NotAvailable,
                    NotAvailable, NotAvailable, NotAvailable, NotAvailable, NotAvailable, NotAvailable))
    else None
  }

  /** The comprehension over the remaining apps, in order; `None` if any app raises. */
  function NotDetailedRows(apps: Entries): Option<seq<AppTuple>> {
    MapAll(apps, (e: (string, Value)) => NotDetailedRow(e.1))
  }

  /** One not-detailed tuple per remaining app, tuple i from app i; none at all if one app lacks its identifier. */
  lemma NotDetailedRowsPointwise(apps: Entries)
    ensures NotDetailedRows(apps).Some? <==>
      forall i :: 0 <= i < |apps| ==> NotDetailedRow(apps[i].1).Some?
    ensures NotDetailedRows(apps).Some? ==>
      var rows := NotDetailedRows(apps).value;
      |rows| == |apps| && forall i :: 0 <= i < |apps| ==> NotDetailedRow(apps[i].1) == Some(rows[i])
  {
    MapAllPointwise(apps, (e: (string, Value)) => NotDetailedRow(e.1));
  }

  /** The two results of readPlists: the backup summary and the apps list. */
  datatype Report = Report(backup: seq<Value>, apps: seq<AppTuple>)

  /** The not-detailed tuples: the comprehension over what the removal loop leaves of the Manifest.plist apps. */
  function NotDetailedApps(notDetailed: Value, keys: seq<string>): Option<seq<AppTuple>> {
    var remaining :- RemainingApps(notDetailed, keys);
    NotDetailedRows(remaining)
  }

  /** The detailed tuples: readApps over the Info.plist apps, skipped when there are none. */
  function DetailedApps(allApps: Value, info: Entries, h: Helpers): Option<seq<AppTuple>> {
    if allApps.Dict? && allApps.entries != [] then AppRows(allApps.entries, info, h) else Some([])
  }

  /**
   * readPlists on decoded plists: the backup summary, and the detailed
   * tuples followed by the not-detailed ones.
   */
  function ReadPlistsSpec(status: Option<Entries>, manifest: Entries, info: Entries, h: Helpers): Option<Report> {
    var allApps := Get(info, "Applications", Blank);
    var keys :- InfoAppKeys(allApps);
    var notDetailed :- NotDetailedApps(Get(manifest, "Applications", Blank), keys);
    var detailed :- DetailedApps(allApps, info, h);
    var backup :- BackupReader(info, manifest, status, h.frpd);
    Some(Report(backup, detailed + notDetailed))
  }

  /** The removal loop and the comprehension of readPlists, on the Manifest.plist apps. */
  method ReadNotDetailedApps(notDetailed: Value, keys: seq<string>) returns (r: Option<seq<AppTuple>>)
    ensures r == NotDetailedApps(notDetailed, keys)
  {
    var remaining: Entries;
    if notDetailed.Dict? {
      var notDetailedApps := new Container.Holding(notDetailed);
      RemoveDuplicateApps(notDetailedApps, keys);
      remaining := notDetailedApps.contents.entries;
    } else {
      var rest := RemainingApps(notDetailed, keys);
      if rest.None? {
        return None;
      }
      remaining := rest.value;
    }
    r := NotDetailedRows(remaining);
  }

  /** readPlists after the three plists have been read. */
  method ReadPlists(status: Option<Entries>, manifest: Entries, info: Entries, h: Helpers) returns (r: Option<Report>)
    ensures r == ReadPlistsSpec(status, manifest, info, h)
  {
    var allApps := Get(info, "Applications", Blank);
    var keys := InfoAppKeys(allApps);
    if keys.None? {
      return None;
    }
    var notDetailedAppDict := ReadNotDetailedApps(Get(manifest, "Applications", Blank), keys.value);
    if notDetailedAppDict.None? {
      return None;
    }
    var apps: seq<AppTuple> := [];
    if allApps.Dict? && |allApps.entries| != 0 {
      var detailed := ReadApps(allApps.entries, info, h);
      if detailed.None? {
        return None;
      }
      apps := detailed.value;
    }
    assert DetailedApps(allApps, info, h) == Some(apps);
    var bkps := BackupReader(info, manifest, status, h.frpd);
    if bkps.None? {
      return None;
    }
    apps := AppendAll(apps, notDetailedAppDict.value);
    return Some(Report(bkps.value, apps));
  }

  /** The closing loop of readPlists: every not-detailed tuple appended to the apps list, in order. */
  method AppendAll(apps: seq<AppTuple>, tuples: seq<AppTuple>) returns (r: seq<AppTuple>)
    ensures r == apps + tuples
  {
    r := apps;
    var j := 0;
    while j < |tuples|
      invariant 0 <= j <= |tuples|
      invariant r == apps + tuples[..j]
    {
      assert tuples[..j + 1] == tuples[..j] + [tuples[j]];
      r := r + [tuples[j]];
      j := j + 1;
    }
    assert tuples[..j] == tuples;
  }

  /**
   * The app tuples of a report when both plists list their applications as
   * dictionaries: one `AppRow` per Info.plist application, in order, then one
   * `NotDetailedRow` per Manifest.plist application that Info.plist does not
   * detail, in Manifest.plist order.
   */
  ghost predicate AppsReported(allApps: Entries, manifestApps: Entries, info: Entries, h: Helpers, apps: seq<AppTuple>) {
    var remaining := WithoutKeys(manifestApps, Keys(allApps));
    && |apps| == |allApps| + |remaining|
    && (forall i :: 0 <= i < |allApps| ==> AppRow(info, allApps[i].1, h) == Some(apps[i]))
    && (forall i :: 0 <= i < |remaining| ==>
          NotDetailedRow(remaining[i].1) == Some(apps[|allApps| + i]))
    && (forall k :: HasKey(remaining, k) <==> HasKey(manifestApps, k) && !HasKey(allApps, k))
    && Keys(remaining) == Omit(Keys(manifestApps), Keys(allApps))
  }

  /**
   * The apps of the report: one detailed tuple per Info.plist app, then the
   * not-detailed tuples, which name exactly the Manifest.plist apps that
   * Info.plist does not list.
   */
  lemma ReadPlistsApps(status: Option<Entries>, manifest: Entries, info: Entries, h: Helpers)
    requires ReadPlistsSpec(status, manifest, info, h).Some?
    requires Get(info, "Applications", Blank).Dict? && Get(manifest, "Applications", Blank).Dict?
    ensures AppsReported(Get(info, "Applications", Blank).entries, Get(manifest, "Applications", Blank).entries,
                         info, h, ReadPlistsSpec(status, manifest, info, h).value.apps)
  {
    ReadPlistsParts(status, manifest, info, h);
    ReportedApps(Get(info, "Applications", Blank).entries, Get(manifest, "Applications", Blank).entries,
                 info, h, ReadPlistsSpec(status, manifest, info, h).value.apps);
  }

  /** The detailed tuples followed by the not-detailed ones have the shape `AppsReported` describes. */
  lemma ReportedApps(allApps: Entries, manifestApps: Entries, info: Entries, h: Helpers, apps: seq<AppTuple>)
    requires DetailedApps(Dict(allApps), info, h).Some?
    requires NotDetailedApps(Dict(manifestApps), Keys(allApps)).Some?
    requires apps == DetailedApps(Dict(allApps), info, h).value + NotDetailedApps(Dict(manifestApps), Keys(allApps)).value
    ensures AppsReported(allApps, manifestApps, info, h, apps)
  {
    var detailed := DetailedApps(Dict(allApps), info, h).value;
    var notDetailed := NotDetailedApps(Dict(manifestApps), Keys(allApps)).value;
    DetailedAppsPointwise(allApps, info, h);
    NotDetailedAppsPointwise(manifestApps, Keys(allApps));
    ConcatParts(detailed, notDetailed, apps);
    WithoutKeysHas(manifestApps, allApps);
    WithoutKeysOrder(manifestApps, Keys(allApps));
  }

  /** A report's apps are the detailed tuples followed by the not-detailed ones. */
  lemma ReadPlistsParts(status: Option<Entries>, manifest: Entries, info: Entries, h: Helpers)
    requires ReadPlistsSpec(status, manifest, info, h).Some?
    ensures var allApps := Get(info, "Applications", Blank);
      && InfoAppKeys(allApps).Some?
      && DetailedApps(allApps, info, h).Some?
      && NotDetailedApps(Get(manifest, "Applications", Blank), InfoAppKeys(allApps).value).Some?
      && ReadPlistsSpec(status, manifest, info, h).value.apps ==
           DetailedApps(allApps, info, h).value + NotDetailedApps(Get(manifest, "Applications", Blank), InfoAppKeys(allApps).value).value
  {
  }

  /** The detailed tuples are one `AppRow` per entry of the Info.plist applications, in order. */
  lemma DetailedAppsPointwise(allApps: Entries, info: Entries, h: Helpers)
    requires DetailedApps(Dict(allApps), info, h).Some?
    ensures var d := DetailedApps(Dict(allApps), info, h).value;
      && |d| == |allApps|
      && forall i :: 0 <= i < |allApps| ==> AppRow(info, allApps[i].1, h) == Some(d[i])
  {
    if allApps != [] {
      AppRowsPointwise(allApps, info, h);
    }
  }

  /** The not-detailed tuples are one `NotDetailedRow` per remaining Manifest.plist application. */
  lemma NotDetailedAppsPointwise(manifestApps: Entries, keys: seq<string>)
    requires NotDetailedApps(Dict(manifestApps), keys).Some?
    ensures var remaining := WithoutKeys(manifestApps, keys);
      var nd := NotDetailedApps(Dict(manifestApps), keys).value;
      && |nd| == |remaining|
      && forall i :: 0 <= i < |remaining| ==> NotDetailedRow(remaining[i].1) == Some(nd[i])
  {
    assert NotDetailedApps(Dict(manifestApps), keys) == NotDetailedRows(WithoutKeys(manifestApps, keys));
    NotDetailedRowsPointwise(WithoutKeys(manifestApps, keys));
  }

  /** The remaining Manifest.plist applications are exactly those Info.plist does not detail. */
  lemma WithoutKeysHas(manifestApps: Entries, allApps: Entries)
    ensures var remaining := WithoutKeys(manifestApps, Keys(allApps));
      forall k :: HasKey(remaining, k) <==> HasKey(manifestApps, k) && !HasKey(allApps, k)
  {
    forall k ensures HasKey(WithoutKeys(manifestApps, Keys(allApps)), k) <==> HasKey(manifestApps, k) && !HasKey(allApps, k) {
      WithoutKeysSpec(manifestApps, Keys(allApps), k);
    }
  }

  lemma ConcatParts<T>(xs: seq<T>, ys: seq<T>, zs: seq<T>)
    requires zs == xs + ys
    ensures |zs| == |xs| + |ys|
    ensures forall i :: 0 <= i < |xs| ==> zs[i] == xs[i]
    ensures forall i :: 0 <= i < |ys| ==> zs[|xs| + i] == ys[i]
  {
  }
}
