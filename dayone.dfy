/**
 * Day One import packaging: the entry constructor, file-type normalisation,
 * the JSON envelope, and the packaging pass of `write_dayone_zip`, which
 * hashes every attachment file once, gives each embedded attachment a photo
 * descriptor, rewrites its numbered placeholder into a `dayone-moment://`
 * reference and selects one archive member per distinct digest.
 *
 * File existence, MD5 digests and UUIDs come from `Oracles`; the archive is
 * described by its member list, not written.
 */
module DayOne {
  import opened Strings
  import opened Values
  import opened Placeholders

  // ---------------------------------------------------------------------------
  // create_entry
  // ---------------------------------------------------------------------------

  const EntryKeys: set<string> :=
    {"uuid", "creationDate", "modifiedDate", "text", "tags", "starred", "journal"}

  /**
   * A new entry record. Empty (absent) dates fall back to `now`, the one
   * clock reading the constructor takes; empty (absent) tags become `[]`.
   */
  function CreateEntry(text: string, creationDate: string, modifiedDate: string, tags: seq<string>,
                       starred: bool, journal: string, now: string, uuid: Uuid): (e: Record)
    ensures e.Keys == EntryKeys
    ensures e["uuid"] == JString(uuid)
    ensures e["text"] == JString(text) && e["starred"] == JBool(starred) && e["journal"] == JString(journal)
    ensures e["tags"] == StringArray(tags)
    ensures creationDate != "" ==> e["creationDate"] == JString(creationDate)
    ensures modifiedDate != "" ==> e["modifiedDate"] == JString(modifiedDate)
    ensures creationDate == "" ==> e["creationDate"] == JString(now)
    ensures modifiedDate == "" ==> e["modifiedDate"] == JString(now)
  {
    map[
      "uuid" := JString(uuid),
      "creationDate" := JString(if creationDate != "" then creationDate else now),
      "modifiedDate" := JString(if modifiedDate != "" then modifiedDate else now),
      "text" := JString(text),
      "tags" := StringArray(if tags != [] then tags else []),
      "starred" := JBool(starred),
      "journal" := JString(journal)
    ]
  }

  // ---------------------------------------------------------------------------
  // file_extension
  // ---------------------------------------------------------------------------

  /** The position of the last `c` in `s`, or -1 (Python's `rfind`). */
  function LastIndexOf(s: string, c: char): (k: int)
    ensures -1 <= k < |s|
  {
    if s == [] then -1
    else if s[|s| - 1] == c then |s| - 1
    else LastIndexOf(s[..|s| - 1], c)
  }

  lemma {:induction false} LastIndexOfFacts(s: string, c: char)
    ensures var k := LastIndexOf(s, c);
      && -1 <= k < |s|
      && (k >= 0 ==> s[k] == c)
      && (forall i :: k < i < |s| ==> s[i] != c)
  {
    if s != [] && s[|s| - 1] != c {
      LastIndexOfFacts(s[..|s| - 1], c);
    }
  }

  /** Every character of `s` is a dot. */
  predicate AllDots(s: string) {
    forall i :: 0 <= i < |s| ==> s[i] == '.'
  }

  /**
   * `os.path.splitext(path)[1].lstrip(".")` for POSIX paths: the text after
   * the last dot of the final path component, unless that component has
   * nothing but dots before it (as in `.bashrc`).
   */
  function RawExtension(path: string): string {
    var sep := LastIndexOf(path, '/');
    var dot := LastIndexOf(path, '.');
    if sep < dot && !AllDots(path[sep + 1..dot]) then path[dot + 1..] else ""
  }

  /** Lower-case a type tag and fold `jpg` into `jpeg`. */
  function CanonicalType(ext: string): string {
    var e := Lower(ext);
    if e == "jpg" then "jpeg" else e
  }

  /** The lower-cased extension of a path, without the dot, with `jpg` read as `jpeg`. */
  function FileExtension(path: string): string {
    CanonicalType(RawExtension(path))
  }

  /** A type tag is never `jpg`, holds no dot or slash, and is already canonical. */
  lemma FileExtensionFacts(path: string)
    ensures var r := FileExtension(path);
      r != "jpg" && '.' !in r && '/' !in r && CanonicalType(r) == r
  {
    var raw := RawExtension(path);
    LastIndexOfFacts(path, '/');
    LastIndexOfFacts(path, '.');
    assert '.' !in raw && '/' !in raw;
    LowerIdempotent(raw);
  }

  /** Appending text without `c` does not move the last `c`. */
  lemma {:induction false} LastIndexOfAppend(a: string, b: string, c: char)
    requires c !in b
    ensures LastIndexOf(a + b, c) == LastIndexOf(a, c)
    decreases |b|
  {
    if b != [] {
      assert (a + b)[..|a + b| - 1] == a + b[..|b| - 1];
      LastIndexOfAppend(a, b[..|b| - 1], c);
    } else {
      assert a + b == a;
    }
  }

  /** The extension after a dot that ends a file name. */
  lemma FileExtensionOfName(stem: string, ext: string)
    requires stem != [] && stem[|stem| - 1] != '.' && stem[|stem| - 1] != '/'
    requires '.' !in ext && '/' !in ext
    ensures FileExtension(stem + "." + ext) == CanonicalType(ext)
  {
    RawExtensionOfName(stem, ext);
  }

  lemma RawExtensionOfName(stem: string, ext: string)
    requires stem != [] && stem[|stem| - 1] != '.' && stem[|stem| - 1] != '/'
    requires '.' !in ext && '/' !in ext
    ensures RawExtension(stem + "." + ext) == ext
  {
    var named := stem + ".";
    var path := named + ext;
    LastIndexOfAppend(named, ext, '.');
    LastIndexOfAppend(named, ext, '/');
    assert named[..|named| - 1] == stem;
    var sep := LastIndexOf(stem, '/');
    LastIndexOfFacts(stem, '/');
    assert LastIndexOf(path, '.') == |stem|;
    assert LastIndexOf(path, '/') == sep < |stem| - 1;
    assert path[sep + 1..|stem|][|stem| - 1 - (sep + 1)] == stem[|stem| - 1];
    assert path[|stem| + 1..] == ext;
  }

  /** A path whose final component has no dot after its first character has no extension. */
  lemma FileExtensionOfHiddenName(dir: string, name: string)
    requires '.' !in name && '/' !in name
    ensures FileExtension(dir + "/." + name) == ""
  {
    var hidden := dir + "/.";
    LastIndexOfAppend(hidden, name, '.');
    LastIndexOfAppend(hidden, name, '/');
    assert hidden[..|hidden| - 1] == dir + "/";
    assert LastIndexOf(dir + "/." + name, '/') == |dir|;
    assert LastIndexOf(dir + "/." + name, '.') == |dir| + 1;
  }

  // ---------------------------------------------------------------------------
  // build_dayone_json
  // ---------------------------------------------------------------------------

  /** Keys used while packaging that are not part of Day One's format. */
  const InternalKeys: set<string> := {"attachment_paths", "attachment_photos"}

  /** An entry as it is serialized: every key except the internal ones, values unchanged. */
  function Serialized(e: Record): (r: Record)
    ensures r.Keys == e.Keys - InternalKeys
    ensures forall k :: k in r ==> r[k] == e[k]
  {
    map k | k in e && k !in InternalKeys :: e[k]
  }

  /** The import envelope `{"metadata": {"version": "1.0"}, "entries": [...]}`. */
  function Envelope(entries: seq<Record>): (doc: Json)
    ensures doc.JObject? && doc.fields.Keys == {"metadata", "entries"}
    ensures doc.fields["metadata"] == JObject(map["version" := JString("1.0")])
    ensures doc.fields["entries"].JArray? && |doc.fields["entries"].items| == |entries|
    ensures forall i :: 0 <= i < |entries| ==>
              doc.fields["entries"].items[i] == JObject(Serialized(entries[i]))
  {
    var cleaned := seq(|entries|, i requires 0 <= i < |entries| => JObject(Serialized(entries[i])));
    JObject(map["metadata" := JObject(map["version" := JString("1.0")]), "entries" := JArray(cleaned)])
  }

  /** build_dayone_json: strips the internal keys of every entry, in order, and wraps them. */
  method BuildDayOneJson(entries: seq<Record>) returns (doc: Json)
    ensures doc == Envelope(entries)
  {
    var cleaned: seq<Json> := [];
    var i := 0;
    while i < |entries|
      invariant 0 <= i <= |entries|
      invariant |cleaned| == i
      invariant forall k :: 0 <= k < i ==> cleaned[k] == JObject(Serialized(entries[k]))
    {
      var entry := entries[i];
      var clean := map k | k in entry && k !in InternalKeys :: entry[k];
      cleaned := cleaned + [JObject(clean)];
      i := i + 1;
    }
    assert cleaned == seq(|entries|, k requires 0 <= k < |entries| => JObject(Serialized(entries[k])));
    doc := JObject(map["metadata" := JObject(map["version" := JString("1.0")]), "entries" := JArray(cleaned)]);
  }

  // ---------------------------------------------------------------------------
  // write_dayone_zip: data
  // ---------------------------------------------------------------------------

  /** A cached `(md5, ext)` pair of `photo_files`. */
  datatype FileInfo = FileInfo(md5: string, ext: string)

  /** A photo descriptor: `{"md5", "identifier", "type", "orderInEntry"}`. */
  datatype Photo = Photo(md5: string, identifier: Uuid, fileType: string, orderInEntry: nat)

  function PhotoRecord(p: Photo): Json {
    JObject(map[
      "md5" := JString(p.md5),
      "identifier" := JString(p.identifier),
      "type" := JString(p.fileType),
      "orderInEntry" := JNumber(p.orderInEntry)
    ])
  }

  function PhotoList(ps: seq<Photo>): Json {
    JArray(PhotoRecords(ps))
  }

  function PhotoRecords(ps: seq<Photo>): (r: seq<Json>)
    ensures |r| == |ps|
  {
    if ps == [] then [] else PhotoRecords(ps[..|ps| - 1]) + [PhotoRecord(ps[|ps| - 1])]
  }

  /** The k-th element of the `photos` array describes the k-th descriptor. */
  lemma {:induction false} PhotoRecordsAt(ps: seq<Photo>, k: nat)
    requires k < |ps|
    ensures PhotoRecords(ps)[k] == PhotoRecord(ps[k])
  {
    if k < |ps| - 1 {
      PhotoRecordsAt(ps[..|ps| - 1], k);
    }
  }

  /**
   * The functions the packaging loop calls: whether a path names an existing
   * file (`os.path.isfile`), the MD5 digest read from a path by the n-th
   * file read of the run (`md5_of_file`), the type tag of a path
   * (`file_extension`, which `Packager` pins to `FileExtension`), and the
   * n-th fresh identifier (`uuid.uuid4().hex.upper()`).
   */
  datatype Oracles = Oracles(isFile: string -> bool, md5Of: (string, nat) -> string,
                             fileExtension: string -> string, uuid4: nat -> Uuid)

  /** The loop calls this module's own `file_extension`. */
  ghost predicate Packager(env: Oracles) {
    env.fileExtension == FileExtension
  }

  /**
   * The run-wide state: the `photo_files` cache as a map plus its insertion
   * order (a Python dict iterates in insertion order), and the number of
   * identifiers drawn so far.
   */
  datatype Run = Run(files: map<string, FileInfo>, order: seq<string>, issued: nat)

  const EmptyRun := Run(map[], [], 0)

  /**
   * The cache holds exactly the paths of `order`, each once, and each path's
   * pair is the digest of the read made when it was first met (the n-th
   * read for the n-th path) together with its extension.
   */
  ghost predicate CacheValid(run: Run, env: Oracles) {
    && (forall p :: p in run.files <==> p in run.order)
    && (forall a, b :: 0 <= a < b < |run.order| ==> run.order[a] != run.order[b])
    && (forall n :: 0 <= n < |run.order| ==>
          run.files[run.order[n]] == FileInfo(env.md5Of(run.order[n], n), env.fileExtension(run.order[n])))
  }

  /** A later cache keeps every earlier pair and the earlier insertion order. */
  ghost predicate Extends(run: Run, run': Run) {
    && |run.order| <= |run'.order| && run'.order[..|run.order|] == run.order
    && (forall p :: p in run.files ==> p in run'.files && run'.files[p] == run.files[p])
  }

  /** The descriptor list and run state while one entry's paths are walked. */
  datatype Packed = Packed(photos: seq<Photo>, run: Run)

  /** Every cached path has its pair. */
  predicate Indexed(run: Run) {
    forall i :: 0 <= i < |run.order| ==> run.order[i] in run.files
  }

  /**
   * `photo_files` after meeting an existing path: on first sight the path is
   * hashed (as the next file read) and its pair appended; otherwise the
   * cache is unchanged.
   */
  function Cached(run: Run, path: string, env: Oracles): (r: Run)
    ensures path in r.files && r.issued == run.issued
    ensures forall p :: p in run.files ==> p in r.files && r.files[p] == run.files[p]
    ensures r.order == run.order || r.order == run.order + [path]
    ensures Indexed(run) ==> Indexed(r)
  {
    if path in run.files then run
    else Run(run.files[path := FileInfo(env.md5Of(path, |run.order|), env.fileExtension(path))],
             run.order + [path], run.issued)
  }

  /**
   * One turn of the inner loop for the path at `index`: a missing file is
   * skipped; otherwise its pair is taken from the cache, a fresh identifier
   * is drawn and a descriptor is appended.
   */
  function PackStep(acc: Packed, index: nat, path: string, env: Oracles): (r: Packed)
    ensures Indexed(acc.run) ==> Indexed(r.run)
  {
    if !env.isFile(path) then acc
    else
      var run := Cached(acc.run, path, env);
      var info := run.files[path];
      var id := env.uuid4(run.issued);
      Packed(acc.photos + [Photo(info.md5, id, info.ext, index)], run.(issued := run.issued + 1))
  }

  /** The state after the first `n` paths of one entry. */
  function PackPaths(paths: seq<string>, n: nat, run: Run, env: Oracles): (p: Packed)
    requires n <= |paths|
    ensures Indexed(run) ==> Indexed(p.run)
  {
    if n == 0 then Packed([], run)
    else PackStep(PackPaths(paths, n - 1, run, env), n - 1, paths[n - 1], env)
  }

  /**
   * The text after the replacements of the given descriptors, in order: each
   * turns every `{{ATTACHMENT_<orderInEntry>}}` into a reference to its
   * identifier.
   */
  function Resolve(text: string, photos: seq<Photo>): string {
    if photos == [] then text
    else
      var last := photos[|photos| - 1];
      ReplaceAll(Resolve(text, photos[..|photos| - 1]), Placeholder(last.orderInEntry), MomentRef(last.identifier))
  }

  lemma ResolveSnoc(text: string, photos: seq<Photo>, p: Photo)
    ensures Resolve(text, photos + [p])
         == ReplaceAll(Resolve(text, photos), Placeholder(p.orderInEntry), MomentRef(p.identifier))
  {
    assert (photos + [p])[..|photos|] == photos;
  }

  /** The number of the first `n` paths that name existing files. */
  function CountExisting(paths: seq<string>, n: nat, isFile: string -> bool): nat
    requires n <= |paths|
  {
    if n == 0 then 0 else CountExisting(paths, n - 1, isFile) + (if isFile(paths[n - 1]) then 1 else 0)
  }

  /** `entry.get("attachment_paths") or []`. */
  function AttachmentPaths(e: Record): seq<string> {
    if "attachment_paths" in e && e["attachment_paths"].JArray? && AllStrings(e["attachment_paths"].items)
    then StringsOf(e["attachment_paths"].items)
    else []
  }

  /** `entry["text"]` where it is a string. */
  function TextOf(e: Record): string {
    if "text" in e && e["text"].JString? then e["text"].s else ""
  }

  /**
   * What packaging demands of an entry: its attachment paths are absent,
   * falsy or a list of strings, and it has a string text whenever one of
   * them names an existing file (the only time the text is read).
   */
  predicate Packable(e: Record, env: Oracles) {
    && ("attachment_paths" !in e || !Truthy(e["attachment_paths"])
        || (e["attachment_paths"].JArray? && AllStrings(e["attachment_paths"].items)))
    && ((exists i :: 0 <= i < |AttachmentPaths(e)| && env.isFile(AttachmentPaths(e)[i]))
        ==> "text" in e && e["text"].JString?)
  }

  /** Every entry of a batch can be packaged. */
  predicate AllPackable(es: seq<Record>, env: Oracles) {
    forall i :: 0 <= i < |es| ==> Packable(es[i], env)
  }

  datatype PackedEntry = PackedEntry(entry: Record, photos: seq<Photo>, run: Run)

  /**
   * One entry after packaging: `text` rewritten when some file existed,
   * `photos` set to the descriptor list in every case.
   */
  function PackEntry(e: Record, run: Run, env: Oracles): (r: PackedEntry)
    ensures Indexed(run) ==> Indexed(r.run)
  {
    var paths := AttachmentPaths(e);
    var p := PackPaths(paths, |paths|, run, env);
    var withText := if p.photos != [] then e["text" := JString(Resolve(TextOf(e), p.photos))] else e;
    PackedEntry(withText["photos" := PhotoList(p.photos)], p.photos, p.run)
  }

  /** The cache after the first `n` entries have been packaged, in order. */
  function RunAfter(es: seq<Record>, n: nat, run: Run, env: Oracles): (r: Run)
    requires n <= |es|
    ensures Indexed(run) ==> Indexed(r)
  {
    if n == 0 then run
    else PackPaths(AttachmentPaths(es[n - 1]), |AttachmentPaths(es[n - 1])|, RunAfter(es, n - 1, run, env), env).run
  }

  /** The descriptors of the i-th entry, packaged against the cache left by the entries before it. */
  function EntryPhotos(es: seq<Record>, i: nat, run: Run, env: Oracles): seq<Photo>
    requires i < |es|
  {
    PackEntry(es[i], RunAfter(es, i, run, env), env).photos
  }

  /** The first `n` values of `f`, in order. */
  function Prefix<T>(f: nat -> T, n: nat): (r: seq<T>)
    ensures |r| == n
  {
    if n == 0 then [] else Prefix(f, n - 1) + [f(n - 1)]
  }

  lemma {:induction false} PrefixAt<T>(f: nat -> T, n: nat, i: nat)
    requires i < n
    ensures Prefix(f, n)[i] == f(i)
  {
    if i < n - 1 {
      PrefixAt(f, n - 1, i);
    }
  }

  /** The i-th entry packaged against the cache left by the `i` before it. */
  function PackedAt(es: seq<Record>, run: Run, env: Oracles): nat -> Record {
    (i: nat) => if i < |es| then PackEntry(es[i], RunAfter(es, i, run, env), env).entry else map[]
  }

  /** The first `n` entries after packaging, in order. */
  function PackEntries(es: seq<Record>, n: nat, run: Run, env: Oracles): (r: seq<Record>)
    ensures |r| == n
  {
    Prefix(PackedAt(es, run, env), n)
  }

  /** The i-th packaged entry is the i-th entry packaged against the cache left by the `i` before it. */
  lemma PackEntriesAt(es: seq<Record>, n: nat, run: Run, env: Oracles, i: nat)
    requires i < n <= |es|
    ensures PackEntries(es, n, run, env)[i] == PackEntry(es[i], RunAfter(es, i, run, env), env).entry
  {
    PrefixAt(PackedAt(es, run, env), n, i);
  }

  // ---------------------------------------------------------------------------
  // write_dayone_zip: archive members
  // ---------------------------------------------------------------------------

  /** An archive member: the manifest document, or a copy of a local file. */
  datatype Member = JsonMember(name: string, doc: Json) | FileMember(name: string, source: string)

  datatype Archive = Archive(path: string, members: seq<Member>)

  /** `os.path.join(a, b)` on POSIX. */
  function PathJoin(a: string, b: string): string {
    if b != [] && b[0] == '/' then b
    else if a == [] || a[|a| - 1] == '/' then a + b
    else a + "/" + b
  }

  function DigestAt(run: Run, i: nat): string
    requires Indexed(run) && i < |run.order|
  {
    run.files[run.order[i]].md5
  }

  /** The i-th cached path is the first one cached with its digest. */
  predicate FirstWithDigest(run: Run, i: nat)
    requires Indexed(run) && i < |run.order|
  {
    forall j :: 0 <= j < i ==> DigestAt(run, j) != DigestAt(run, i)
  }

  /**
   * The positions, among the first `n` cached paths, of those whose file is
   * written: in increasing order, each the first with its digest.
   */
  function Written(run: Run, n: nat): (w: seq<nat>)
    requires Indexed(run) && n <= |run.order|
    ensures forall a :: 0 <= a < |w| ==> w[a] < n && FirstWithDigest(run, w[a])
    ensures forall a, b :: 0 <= a < b < |w| ==> w[a] < w[b]
  {
    if n == 0 then []
    else Written(run, n - 1) + (if FirstWithDigest(run, n - 1) then [n - 1] else [])
  }

  /** `photos/<md5>.<ext>`, copied from the cached path. */
  function PhotoMember(run: Run, i: nat): Member
    requires Indexed(run) && i < |run.order|
  {
    var info := run.files[run.order[i]];
    FileMember("photos/" + info.md5 + "." + info.ext, run.order[i])
  }

  function PhotoMembers(run: Run): seq<Member>
    requires Indexed(run)
  {
    var w := Written(run, |run.order|);
    seq(|w|, a requires 0 <= a < |w| => PhotoMember(run, w[a]))
  }

  /** No digest is written twice. */
  lemma WrittenDigestsDistinct(run: Run, n: nat)
    requires Indexed(run) && n <= |run.order|
    ensures forall a, b :: 0 <= a < b < |Written(run, n)| ==>
              DigestAt(run, Written(run, n)[a]) != DigestAt(run, Written(run, n)[b])
  {
  }

  /** Every position that is first with its digest is written. */
  lemma {:induction false} WrittenComplete(run: Run, n: nat)
    requires Indexed(run) && n <= |run.order|
    ensures forall i :: 0 <= i < n && FirstWithDigest(run, i) ==> i in Written(run, n)
  {
    if n > 0 {
      WrittenComplete(run, n - 1);
    }
  }

  /** Every cached digest, among the first `n` paths, is written by some member. */
  lemma {:induction false} WrittenCoversDigests(run: Run, n: nat, i: nat)
    requires Indexed(run) && i < n <= |run.order|
    ensures exists a :: 0 <= a < |Written(run, n)| && DigestAt(run, Written(run, n)[a]) == DigestAt(run, i)
    decreases i
  {
    if FirstWithDigest(run, i) {
      WrittenComplete(run, n);
      var a :| 0 <= a < |Written(run, n)| && Written(run, n)[a] == i;
    } else {
      var j :| 0 <= j < i && DigestAt(run, j) == DigestAt(run, i);
      WrittenCoversDigests(run, n, j);
    }
  }

  /** Every cached path's digest is written by the member of the first path with that digest. */
  lemma PhotoMembersCoverDigest(run: Run, n: nat)
    requires Indexed(run) && n < |run.order|
    ensures exists x :: 0 <= x < |run.order| && FirstWithDigest(run, x) && DigestAt(run, x) == DigestAt(run, n)
              && PhotoMember(run, x) in PhotoMembers(run)
  {
    var w := Written(run, |run.order|);
    WrittenCoversDigests(run, |run.order|, n);
    var a :| 0 <= a < |w| && DigestAt(run, w[a]) == DigestAt(run, n);
    assert PhotoMembers(run)[a] == PhotoMember(run, w[a]);
  }

  /** The digests of the first `i` cached paths. */
  function DigestsBefore(run: Run, i: nat): set<string>
    requires Indexed(run) && i <= |run.order|
  {
    if i == 0 then {} else DigestsBefore(run, i - 1) + {DigestAt(run, i - 1)}
  }

  lemma {:induction false} DigestsBeforeMembers(run: Run, i: nat, d: string)
    requires Indexed(run) && i <= |run.order|
    ensures d in DigestsBefore(run, i) <==> exists j :: 0 <= j < i && DigestAt(run, j) == d
  {
    if i > 0 {
      DigestsBeforeMembers(run, i - 1, d);
      if DigestAt(run, i - 1) == d {
        assert 0 <= i - 1 < i && DigestAt(run, i - 1) == d;
      }
    }
  }

  /** A cached path is the first with its digest exactly when no earlier path had that digest. */
  lemma FirstWithDigestIsNew(run: Run, i: nat)
    requires Indexed(run) && i < |run.order|
    ensures FirstWithDigest(run, i) <==> DigestAt(run, i) !in DigestsBefore(run, i)
  {
    DigestsBeforeMembers(run, i, DigestAt(run, i));
  }

  /** The archive members of the photos folder, in cache order, skipping digests already added. */
  method ArchivePhotoMembers(run: Run) returns (members: seq<Member>)
    requires Indexed(run)
    ensures members == PhotoMembers(run)
  {
    members := [];
    var added: set<string> := {};
    var i := 0;
    while i < |run.order|
      invariant 0 <= i <= |run.order|
      invariant added == DigestsBefore(run, i)
      invariant |members| == |Written(run, i)|
      invariant forall a :: 0 <= a < |members| ==> members[a] == PhotoMember(run, Written(run, i)[a])
    {
      var localPath := run.order[i];
      var info := run.files[localPath];
      FirstWithDigestIsNew(run, i);
      if info.md5 !in added {
        members := members + [FileMember("photos/" + info.md5 + "." + info.ext, localPath)];
        added := added + {info.md5};
      }
      i := i + 1;
    }
  }

  // ---------------------------------------------------------------------------
  // write_dayone_zip: methods
  // ---------------------------------------------------------------------------

  /**
   * The inner loop over one entry's paths: skips missing files, hashes each
   * new path once, draws an identifier per existing file, and rewrites that
   * file's placeholder in the running text.
   */
  method PackPathList(paths: seq<string>, text0: string, run: Run, env: Oracles)
    returns (photosList: seq<Photo>, text: string, run': Run)
    requires Packager(env)
    ensures Packed(photosList, run') == PackPaths(paths, |paths|, run, env)
    ensures text == Resolve(text0, photosList)
  {
    photosList := [];
    text := text0;
    run' := run;
    var index := 0;
    while index < |paths|
      invariant index <= |paths|
      invariant Packed(photosList, run') == PackPaths(paths, index, run, env)
      invariant text == Resolve(text0, photosList)
    {
      var localPath := paths[index];
      if env.isFile(localPath) {
        ghost var before := Packed(photosList, run');
        run' := CachePath(run', localPath, env);
        var info := run'.files[localPath];
        var identifier := env.uuid4(run'.issued);
        run' := run'.(issued := run'.issued + 1);
        var photo := Photo(info.md5, identifier, info.ext, index);
        ResolveSnoc(text0, photosList, photo);
        photosList := photosList + [photo];
        text := ReplaceAll(text, Placeholder(index), MomentRef(identifier));
        assert Packed(photosList, run') == PackStep(before, index, localPath, env);
      }
      index := index + 1;
    }
  }

  /** The digest cache on meeting an existing path: hashed and typed only on first sight. */
  method CachePath(run: Run, path: string, env: Oracles) returns (run': Run)
    requires Packager(env)
    ensures run' == Cached(run, path, env)
  {
    run' := run;
    if path !in run.files {
      var md5 := env.md5Of(path, |run.order|);
      var ext := FileExtension(path);
      run' := run.(files := run.files[path := FileInfo(md5, ext)], order := run.order + [path]);
    }
  }

  /**
   * The per-entry body of the packaging loop: the text is written back when
   * some file existed, and `photos` is always set.
   */
  method PackAttachments(e: Record, run: Run, env: Oracles) returns (packed: Record, run': Run)
    requires Packager(env) && Packable(e, env)
    ensures packed == PackEntry(e, run, env).entry && run' == PackEntry(e, run, env).run
  {
    var attachmentPaths := AttachmentPaths(e);
    var photosList, text;
    photosList, text, run' := PackPathList(attachmentPaths, TextOf(e), run, env);
    packed := e;
    if photosList != [] {
      packed := packed["text" := JString(text)];
    }
    packed := packed["photos" := PhotoList(photosList)];
  }

  /**
   * The packaging loop of write_dayone_zip: every entry is packaged in place,
   * in order, against one cache shared by all of them.
   */
  method PackEntriesInPlace(entries: array<Record>, env: Oracles) returns (photoFiles: Run)
    requires Packager(env) && AllPackable(entries[..], env)
    modifies entries
    ensures entries[..] == PackEntries(old(entries[..]), entries.Length, EmptyRun, env)
    ensures photoFiles == RunAfter(old(entries[..]), entries.Length, EmptyRun, env)
  {
    photoFiles := EmptyRun;
    ghost var original := entries[..];
    var i := 0;
    while i < entries.Length
      invariant 0 <= i <= entries.Length
      invariant entries[..i] == PackEntries(original, i, EmptyRun, env)
      invariant entries[i..] == original[i..]
      invariant photoFiles == RunAfter(original, i, EmptyRun, env)
    {
      photoFiles := PackEntryAt(entries, i, photoFiles, env, original);
      i := i + 1;
    }
    assert entries[..] == entries[..entries.Length];
  }

  /** One turn of the outer loop: entry `i` is packaged in place against the shared cache. */
  method PackEntryAt(entries: array<Record>, i: nat, run: Run, env: Oracles, ghost original: seq<Record>)
    returns (run': Run)
    requires Packager(env) && i < entries.Length == |original| && AllPackable(original, env)
    requires entries[..i] == PackEntries(original, i, EmptyRun, env) && entries[i..] == original[i..]
    requires run == RunAfter(original, i, EmptyRun, env)
    modifies entries
    ensures entries[..i + 1] == PackEntries(original, i + 1, EmptyRun, env) && entries[i + 1..] == original[i + 1..]
    ensures run' == RunAfter(original, i + 1, EmptyRun, env)
  {
    assert entries[i] == entries[i..][0] == original[i];
    var packed;
    packed, run' := PackAttachments(entries[i], run, env);
    entries[i] := packed;
    assert entries[..i + 1] == old(entries[..i]) + [packed];
    assert entries[i + 1..] == old(entries[i..])[1..];
  }

  /**
   * write_dayone_zip: packages every entry in place, then lays out the archive
   * at `output_dir/filename`: the manifest `Journal.json` followed by one
   * `photos/<md5>.<ext>` member per distinct digest.
   */
  method WriteDayOneZip(entries: array<Record>, outputDir: string, filename: string, env: Oracles)
    returns (archive: Archive)
    requires Packager(env) && AllPackable(entries[..], env)
    modifies entries
    ensures entries[..] == PackEntries(old(entries[..]), entries.Length, EmptyRun, env)
    ensures archive.path == PathJoin(outputDir, filename)
    ensures archive.members ==
              [JsonMember("Journal.json", Envelope(entries[..]))]
              + PhotoMembers(RunAfter(old(entries[..]), entries.Length, EmptyRun, env))
  {
    var zipPath := PathJoin(outputDir, filename);
    var photoFiles := PackEntriesInPlace(entries, env);
    var dayoneJson := BuildDayOneJson(entries[..]);
    var photoMembers := ArchivePhotoMembers(photoFiles);
    archive := Archive(zipPath, [JsonMember("Journal.json", dayoneJson)] + photoMembers);
  }

  // ---------------------------------------------------------------------------
  // Properties of packaging
  // ---------------------------------------------------------------------------

  /** One descriptor per existing file; one identifier drawn per descriptor. */
  lemma {:induction false} PackPathsCount(paths: seq<string>, n: nat, run: Run, env: Oracles)
    requires n <= |paths|
    ensures |PackPaths(paths, n, run, env).photos| == CountExisting(paths, n, env.isFile)
    ensures PackPaths(paths, n, run, env).run.issued == run.issued + |PackPaths(paths, n, run, env).photos|
  {
    if n > 0 {
      PackPathsCount(paths, n - 1, run, env);
    }
  }

  /** The k-th descriptor carries the k-th identifier drawn after the run's earlier ones. */
  lemma {:induction false} PackPathsIdentifier(paths: seq<string>, n: nat, run: Run, env: Oracles, k: nat)
    requires n <= |paths| && k < |PackPaths(paths, n, run, env).photos|
    ensures PackPaths(paths, n, run, env).photos[k].identifier == env.uuid4(run.issued + k)
  {
    var p := PackPaths(paths, n, run, env);
    var q := PackPaths(paths, n - 1, run, env);
    if !env.isFile(paths[n - 1]) {
      PackPathsIdentifier(paths, n - 1, run, env, k);
    } else if k < |q.photos| {
      PackPathsIdentifier(paths, n - 1, run, env, k);
      assert p.photos[k] == q.photos[k] by {
        PackStepRun(q, n - 1, paths[n - 1], env);
      }
    } else {
      assert q.run.issued == run.issued + k by {
        PackPathsCount(paths, n - 1, run, env);
      }
      assert p.photos[k].identifier == env.uuid4(q.run.issued) by {
        PackStepRun(q, n - 1, paths[n - 1], env);
      }
    }
  }

  /**
   * A descriptor's `orderInEntry` is the position, in the entry's original
   * path list, of an existing file.
   */
  lemma {:induction false} PackPathsPositions(paths: seq<string>, n: nat, run: Run, env: Oracles)
    requires n <= |paths|
    ensures forall k :: 0 <= k < |PackPaths(paths, n, run, env).photos| ==>
              && PackPaths(paths, n, run, env).photos[k].orderInEntry < n
              && env.isFile(paths[PackPaths(paths, n, run, env).photos[k].orderInEntry])
  {
    if n > 0 {
      PackPathsPositions(paths, n - 1, run, env);
    }
  }

  /** Descriptors follow path order, so positions strictly increase (a skipped file leaves a gap). */
  lemma {:induction false} PackPathsIncreasing(paths: seq<string>, n: nat, run: Run, env: Oracles)
    requires n <= |paths|
    ensures forall k1, k2 :: 0 <= k1 < k2 < |PackPaths(paths, n, run, env).photos| ==>
              PackPaths(paths, n, run, env).photos[k1].orderInEntry
              < PackPaths(paths, n, run, env).photos[k2].orderInEntry
  {
    if n > 0 {
      PackPathsIncreasing(paths, n - 1, run, env);
      PackPathsPositions(paths, n - 1, run, env);
    }
  }

  /**
   * Every existing file among the paths has a descriptor: the one whose
   * index is the number of existing files before it.
   */
  lemma {:induction false} PackPathsComplete(paths: seq<string>, n: nat, run: Run, env: Oracles)
    requires n <= |paths|
    ensures forall j :: 0 <= j < n && env.isFile(paths[j]) ==>
              && CountExisting(paths, j, env.isFile) < |PackPaths(paths, n, run, env).photos|
              && PackPaths(paths, n, run, env).photos[CountExisting(paths, j, env.isFile)].orderInEntry == j
  {
    if n > 0 {
      PackPathsComplete(paths, n - 1, run, env);
      PackPathsCount(paths, n - 1, run, env);
      var q := PackPaths(paths, n - 1, run, env);
      var p := PackPaths(paths, n, run, env);
      forall j | 0 <= j < n && env.isFile(paths[j])
        ensures CountExisting(paths, j, env.isFile) < |p.photos|
        ensures p.photos[CountExisting(paths, j, env.isFile)].orderInEntry == j
      {
        var c := CountExisting(paths, j, env.isFile);
        if j < n - 1 {
          assert c < |q.photos|;
          assert p.photos[c] == q.photos[c];
        }
      }
    }
  }

  /** One step on an existing path: the run is the cache after meeting it, with one more identifier issued. */
  lemma PackStepRun(acc: Packed, index: nat, path: string, env: Oracles)
    requires env.isFile(path)
    ensures PackStep(acc, index, path, env).run == Cached(acc.run, path, env).(issued := acc.run.issued + 1)
    ensures |PackStep(acc, index, path, env).photos| == |acc.photos| + 1
    ensures forall k :: 0 <= k < |acc.photos| ==> PackStep(acc, index, path, env).photos[k] == acc.photos[k]
    ensures PackStep(acc, index, path, env).photos[|acc.photos|].orderInEntry == index
    ensures PackStep(acc, index, path, env).photos[|acc.photos|].identifier == env.uuid4(acc.run.issued)
    ensures PackStep(acc, index, path, env).photos[|acc.photos|].md5 == Cached(acc.run, path, env).files[path].md5
    ensures PackStep(acc, index, path, env).photos[|acc.photos|].fileType == Cached(acc.run, path, env).files[path].ext
  {
  }

  /** Over one entry's paths the cache keeps every earlier pair and the earlier order. */
  lemma {:induction false} PackPathsExtends(paths: seq<string>, n: nat, run: Run, env: Oracles)
    requires n <= |paths|
    ensures Extends(run, PackPaths(paths, n, run, env).run)
  {
    if n > 0 {
      PackPathsExtends(paths, n - 1, run, env);
      var q := PackPaths(paths, n - 1, run, env);
      var path := paths[n - 1];
      if env.isFile(path) {
        PackStepRun(q, n - 1, path, env);
        CachedExtends(q.run, path, env);
        ExtendsTransitive(run, q.run, PackPaths(paths, n, run, env).run);
      }
    }
  }

  /**
   * The cache stays valid over one entry's paths: each distinct path hashed
   * once, by the read made when it was first met.
   */
  lemma {:induction false} PackPathsValid(paths: seq<string>, n: nat, run: Run, env: Oracles)
    requires n <= |paths| && CacheValid(run, env)
    ensures CacheValid(PackPaths(paths, n, run, env).run, env)
  {
    if n > 0 {
      PackPathsValid(paths, n - 1, run, env);
      var q := PackPaths(paths, n - 1, run, env);
      var path := paths[n - 1];
      if env.isFile(path) {
        PackStepRun(q, n - 1, path, env);
        CachedValid(q.run, path, env);
      }
    }
  }

  /** Every existing path among the first `n` is cached afterwards. */
  lemma {:induction false} PackPathsCovers(paths: seq<string>, n: nat, run: Run, env: Oracles, j: nat)
    requires j < n <= |paths| && env.isFile(paths[j])
    ensures paths[j] in PackPaths(paths, n, run, env).run.files
  {
    var q := PackPaths(paths, n - 1, run, env);
    var path := paths[n - 1];
    if j < n - 1 {
      PackPathsCovers(paths, n - 1, run, env, j);
    }
    if env.isFile(path) {
      PackStepRun(q, n - 1, path, env);
      CachedExtends(q.run, path, env);
    }
  }

  /** Only existing paths are added to the cache. */
  lemma {:induction false} PackPathsAddsExisting(paths: seq<string>, n: nat, run: Run, env: Oracles)
    requires n <= |paths|
    ensures |run.order| <= |PackPaths(paths, n, run, env).run.order|
    ensures forall i :: |run.order| <= i < |PackPaths(paths, n, run, env).run.order| ==>
              env.isFile(PackPaths(paths, n, run, env).run.order[i])
  {
    if n > 0 {
      PackPathsAddsExisting(paths, n - 1, run, env);
      var q := PackPaths(paths, n - 1, run, env);
      var path := paths[n - 1];
      if env.isFile(path) {
        PackStepRun(q, n - 1, path, env);
        CachedExtends(q.run, path, env);
        var r := PackPaths(paths, n, run, env).run;
        forall i | |run.order| <= i < |r.order| ensures env.isFile(r.order[i]) {
          if i < |q.run.order| {
            assert r.order[i] == q.run.order[i];
          }
        }
      }
    }
  }

  /** Every descriptor carries the cached digest and type of its path. */
  lemma {:induction false} PackPathsAgree(paths: seq<string>, n: nat, run: Run, env: Oracles)
    requires n <= |paths|
    ensures forall k :: 0 <= k < |PackPaths(paths, n, run, env).photos| ==>
              DescriptorAgrees(paths, PackPaths(paths, n, run, env).photos[k], PackPaths(paths, n, run, env).run)
  {
    if n > 0 {
      PackPathsAgree(paths, n - 1, run, env);
      var q := PackPaths(paths, n - 1, run, env);
      var p := PackPaths(paths, n, run, env);
      var path := paths[n - 1];
      if env.isFile(path) {
        PackStepRun(q, n - 1, path, env);
        CachedExtends(q.run, path, env);
        forall k | 0 <= k < |p.photos| ensures DescriptorAgrees(paths, p.photos[k], p.run) {
          if k < |q.photos| {
            DescriptorAgreesLater(paths, q.photos[k], q.run, p.run);
          }
        }
      }
    }
  }

  /**
   * Resolving descriptors with distinct positions: no placeholder of a
   * resolved position is left, the placeholders of every other position are
   * exactly as they were, and every descriptor whose placeholder was in the
   * text has its reference in the result.
   */
  lemma {:induction false} ResolveText(text: string, ps: seq<Photo>)
    requires forall a, b :: 0 <= a < b < |ps| ==> ps[a].orderInEntry != ps[b].orderInEntry
    ensures forall k :: 0 <= k < |ps| ==> !Contains(Resolve(text, ps), Placeholder(ps[k].orderInEntry))
    ensures forall j: nat :: (forall k :: 0 <= k < |ps| ==> ps[k].orderInEntry != j) ==>
              (Contains(Resolve(text, ps), Placeholder(j)) <==> Contains(text, Placeholder(j)))
    ensures forall k :: 0 <= k < |ps| && Contains(text, Placeholder(ps[k].orderInEntry)) ==>
              Contains(Resolve(text, ps), MomentRef(ps[k].identifier))
  {
    if ps != [] {
      var init, last := ps[..|ps| - 1], ps[|ps| - 1];
      ResolveText(text, init);
      var before := Resolve(text, init);
      var pat, rep := Placeholder(last.orderInEntry), MomentRef(last.identifier);
      assert Resolve(text, ps) == ReplaceAll(before, pat, rep);
      PlaceholderApartFromRef(last.orderInEntry, last.identifier);
      forall k | 0 <= k < |ps| ensures !Contains(Resolve(text, ps), Placeholder(ps[k].orderInEntry)) {
        if k == |ps| - 1 {
          ReplaceAllRemoves(before, pat, rep);
        } else {
          assert init[k] == ps[k];
          PlaceholderApartFromRef(ps[k].orderInEntry, last.identifier);
          ReplaceAllCreatesNoOccurrence(before, pat, rep, Placeholder(ps[k].orderInEntry));
        }
      }
      forall j: nat | forall k :: 0 <= k < |ps| ==> ps[k].orderInEntry != j
        ensures Contains(Resolve(text, ps), Placeholder(j)) <==> Contains(text, Placeholder(j))
      {
        assert forall k :: 0 <= k < |init| ==> init[k].orderInEntry != j by {
          forall k | 0 <= k < |init| ensures init[k].orderInEntry != j { assert init[k] == ps[k]; }
        }
        assert last.orderInEntry != j;
        PlaceholderApartFromRef(j, last.identifier);
        ReplaceAllCreatesNoOccurrence(before, pat, rep, Placeholder(j));
        if Contains(before, Placeholder(j)) {
          var o: nat :| OccursAt(before, Placeholder(j), o);
          PlaceholdersApart(last.orderInEntry, j);
          ReplaceAllKeepsOccurrence(before, pat, rep, Placeholder(j), o);
        }
      }
      forall k | 0 <= k < |ps| && Contains(text, Placeholder(ps[k].orderInEntry))
        ensures Contains(Resolve(text, ps), MomentRef(ps[k].identifier))
      {
        if k == |ps| - 1 {
          assert forall x :: 0 <= x < |init| ==> init[x].orderInEntry != last.orderInEntry by {
            forall x | 0 <= x < |init| ensures init[x].orderInEntry != last.orderInEntry { assert init[x] == ps[x]; }
          }
          var o: nat :| OccursAt(before, pat, o);
          ReplaceAllInserts(before, pat, rep, o);
        } else {
          assert init[k] == ps[k];
          var ref := MomentRef(ps[k].identifier);
          var o: nat :| OccursAt(before, ref, o);
          PlaceholderApartFromRef(last.orderInEntry, ps[k].identifier);
          ReplaceAllKeepsOccurrence(before, pat, rep, ref, o);
        }
      }
    }
  }

  /** The text of a packaged entry is its text with its own descriptors resolved. */
  lemma PackEntryTextIsResolved(e: Record, run: Run, env: Oracles)
    ensures TextOf(PackEntry(e, run, env).entry)
            == Resolve(TextOf(e), PackPaths(AttachmentPaths(e), |AttachmentPaths(e)|, run, env).photos)
  {
  }

  /**
   * The text of a packaged entry: every placeholder of an existing file is
   * gone; the placeholders of missing files, and of positions past the path
   * list, are present exactly when they were before; and each descriptor's
   * `dayone-moment://` reference is present when its placeholder was.
   */
  lemma PackEntryText(e: Record, run: Run, env: Oracles)
    ensures forall j :: 0 <= j < |AttachmentPaths(e)| && env.isFile(AttachmentPaths(e)[j]) ==>
              !Contains(TextOf(PackEntry(e, run, env).entry), Placeholder(j))
    ensures forall j: nat :: (j >= |AttachmentPaths(e)| || !env.isFile(AttachmentPaths(e)[j])) ==>
              (Contains(TextOf(PackEntry(e, run, env).entry), Placeholder(j)) <==> Contains(TextOf(e), Placeholder(j)))
    ensures forall k ::
              (0 <= k < |PackEntry(e, run, env).photos|
               && Contains(TextOf(e), Placeholder(PackEntry(e, run, env).photos[k].orderInEntry))) ==>
              Contains(TextOf(PackEntry(e, run, env).entry), MomentRef(PackEntry(e, run, env).photos[k].identifier))
  {
    var paths := AttachmentPaths(e);
    var ps := PackPaths(paths, |paths|, run, env).photos;
    PackPathsPositions(paths, |paths|, run, env);
    PackPathsIncreasing(paths, |paths|, run, env);
    PackPathsComplete(paths, |paths|, run, env);
    ResolveText(TextOf(e), ps);
    PackEntryTextIsResolved(e, run, env);
    forall j | 0 <= j < |paths| && env.isFile(paths[j])
      ensures !Contains(TextOf(PackEntry(e, run, env).entry), Placeholder(j))
    {
      assert ps[CountExisting(paths, j, env.isFile)].orderInEntry == j;
    }
  }

  /** Only `text` and `photos` may differ; every other key and value is kept. */
  ghost predicate OnlyTextAndPhotosChanged(e: Record, e': Record) {
    && e' - {"text", "photos"} == e - {"text", "photos"}
    && ("text" in e' <==> "text" in e)
    && "photos" in e'
  }

  /**
   * Packaging one entry changes only its `text` and `photos`; `photos` is the
   * descriptor list, and `text` is untouched when no file existed.
   */
  lemma PackEntryChanges(e: Record, run: Run, env: Oracles)
    requires Packable(e, env)
    ensures OnlyTextAndPhotosChanged(e, PackEntry(e, run, env).entry)
    ensures PackEntry(e, run, env).entry["photos"] == PhotoList(PackEntry(e, run, env).photos)
    ensures PackEntry(e, run, env).photos == [] && "text" in e ==> PackEntry(e, run, env).entry["text"] == e["text"]
  {
    var paths := AttachmentPaths(e);
    PackPathsPositions(paths, |paths|, run, env);
    var p := PackPaths(paths, |paths|, run, env);
    if p.photos != [] {
      assert env.isFile(paths[p.photos[0].orderInEntry]);
    }
  }

  /** Meeting a new path appends it to the order with the digest of the next read. */
  lemma CachedOrderValid(run: Run, path: string, env: Oracles)
    requires CacheValid(run, env) && path !in run.files
    ensures forall a, b :: 0 <= a < b < |Cached(run, path, env).order| ==>
              Cached(run, path, env).order[a] != Cached(run, path, env).order[b]
    ensures forall m :: 0 <= m < |Cached(run, path, env).order| ==>
              Cached(run, path, env).files[Cached(run, path, env).order[m]]
              == FileInfo(env.md5Of(Cached(run, path, env).order[m], m), env.fileExtension(Cached(run, path, env).order[m]))
  {
    var r := Cached(run, path, env);
    assert r.order == run.order + [path];
    forall m | 0 <= m < |r.order|
      ensures r.files[r.order[m]] == FileInfo(env.md5Of(r.order[m], m), env.fileExtension(r.order[m]))
    {
      if m < |run.order| {
        assert r.order[m] == run.order[m];
      }
    }
  }

  /** Meeting a path keeps the cache valid. */
  lemma CachedValid(run: Run, path: string, env: Oracles)
    requires CacheValid(run, env)
    ensures CacheValid(Cached(run, path, env), env)
  {
    if path !in run.files {
      CachedOrderValid(run, path, env);
      var r := Cached(run, path, env);
      assert r.order == run.order + [path];
    }
  }

  /** Meeting a path keeps every earlier pair and the earlier order, appending at most that path. */
  lemma CachedExtends(run: Run, path: string, env: Oracles)
    ensures Extends(run, Cached(run, path, env))
    ensures Cached(run, path, env).order == run.order || Cached(run, path, env).order == run.order + [path]
  {
    if path !in run.files {
      var r := Cached(run, path, env);
      assert r.order[..|run.order|] == run.order;
    }
  }

  lemma ExtendsTransitive(r1: Run, r2: Run, r3: Run)
    requires Extends(r1, r2) && Extends(r2, r3)
    ensures Extends(r1, r3)
  {
    assert r3.order[..|r1.order|] == r3.order[..|r2.order|][..|r1.order|];
  }

  /**
   * Packaging a list of entries changes only `text` and `photos` of each,
   * `photos` being that entry's descriptor list.
   */
  lemma PackEntriesChanges(es: seq<Record>, run: Run, env: Oracles, i: nat)
    requires i < |es| && Packable(es[i], env)
    ensures OnlyTextAndPhotosChanged(es[i], PackEntries(es, |es|, run, env)[i])
    ensures PackEntries(es, |es|, run, env)[i]["photos"] == PhotoList(EntryPhotos(es, i, run, env))
  {
    PackEntriesAt(es, |es|, run, env, i);
    PackEntryChanges(es[i], RunAfter(es, i, run, env), env);
  }

  /** A later cache of a batch keeps every pair and the order of an earlier one. */
  lemma {:induction false} RunAfterExtends(es: seq<Record>, m: nat, n: nat, run: Run, env: Oracles)
    requires m <= n <= |es|
    ensures Extends(RunAfter(es, m, run, env), RunAfter(es, n, run, env))
  {
    var r := RunAfter(es, m, run, env);
    if m == n {
      assert r.order[..|r.order|] == r.order;
    } else {
      RunAfterExtends(es, m, n - 1, run, env);
      var paths := AttachmentPaths(es[n - 1]);
      PackPathsExtends(paths, |paths|, RunAfter(es, n - 1, run, env), env);
      ExtendsTransitive(r, RunAfter(es, n - 1, run, env), RunAfter(es, n, run, env));
    }
  }

  /** Over a list of entries the cache stays valid. */
  lemma {:induction false} RunAfterValid(es: seq<Record>, n: nat, run: Run, env: Oracles)
    requires n <= |es| && CacheValid(run, env)
    ensures CacheValid(RunAfter(es, n, run, env), env)
  {
    if n > 0 {
      RunAfterValid(es, n - 1, run, env);
      var paths := AttachmentPaths(es[n - 1]);
      PackPathsValid(paths, |paths|, RunAfter(es, n - 1, run, env), env);
    }
  }

  /** Every descriptor of every packaged entry carries the final cached digest and type of its path. */
  lemma EntryPhotosAgree(es: seq<Record>, run: Run, env: Oracles, i: nat, k: nat)
    requires i < |es| && k < |EntryPhotos(es, i, run, env)|
    ensures DescriptorAgrees(AttachmentPaths(es[i]), EntryPhotos(es, i, run, env)[k], RunAfter(es, |es|, run, env))
  {
    var paths := AttachmentPaths(es[i]);
    PackPathsAgree(paths, |paths|, RunAfter(es, i, run, env), env);
    RunAfterExtends(es, i + 1, |es|, run, env);
    DescriptorAgreesLater(paths, EntryPhotos(es, i, run, env)[k], RunAfter(es, i + 1, run, env), RunAfter(es, |es|, run, env));
  }

  /** A descriptor names a valid path position whose cached pair it carries. */
  ghost predicate DescriptorAgrees(paths: seq<string>, d: Photo, run: Run) {
    && d.orderInEntry < |paths|
    && paths[d.orderInEntry] in run.files
    && d.md5 == run.files[paths[d.orderInEntry]].md5
    && d.fileType == run.files[paths[d.orderInEntry]].ext
  }

  lemma DescriptorAgreesLater(paths: seq<string>, d: Photo, run: Run, run': Run)
    requires DescriptorAgrees(paths, d, run) && Extends(run, run')
    ensures DescriptorAgrees(paths, d, run')
  {
  }

  /** Two descriptors for the same path, in the same entry or in different ones, share digest and type. */
  lemma SamePathSameDigest(es: seq<Record>, env: Oracles, i1: nat, k1: nat, i2: nat, k2: nat)
    requires i1 < |es| && i2 < |es|
    requires k1 < |EntryPhotos(es, i1, EmptyRun, env)| && k2 < |EntryPhotos(es, i2, EmptyRun, env)|
    requires EntryPhotos(es, i1, EmptyRun, env)[k1].orderInEntry < |AttachmentPaths(es[i1])|
    requires EntryPhotos(es, i2, EmptyRun, env)[k2].orderInEntry < |AttachmentPaths(es[i2])|
    requires AttachmentPaths(es[i1])[EntryPhotos(es, i1, EmptyRun, env)[k1].orderInEntry]
             == AttachmentPaths(es[i2])[EntryPhotos(es, i2, EmptyRun, env)[k2].orderInEntry]
    ensures EntryPhotos(es, i1, EmptyRun, env)[k1].md5 == EntryPhotos(es, i2, EmptyRun, env)[k2].md5
    ensures EntryPhotos(es, i1, EmptyRun, env)[k1].fileType == EntryPhotos(es, i2, EmptyRun, env)[k2].fileType
  {
    EntryPhotosAgree(es, EmptyRun, env, i1, k1);
    EntryPhotosAgree(es, EmptyRun, env, i2, k2);
  }

  /**
   * With `file_extension` as the type function, every descriptor's `type` is
   * the normalised extension of its path: never `jpg`, no dot, canonical.
   */
  lemma DescriptorType(es: seq<Record>, env: Oracles, i: nat, k: nat)
    requires Packager(env)
    requires i < |es| && k < |EntryPhotos(es, i, EmptyRun, env)|
    ensures EntryPhotos(es, i, EmptyRun, env)[k].orderInEntry < |AttachmentPaths(es[i])|
    ensures EntryPhotos(es, i, EmptyRun, env)[k].fileType
            == FileExtension(AttachmentPaths(es[i])[EntryPhotos(es, i, EmptyRun, env)[k].orderInEntry])
    ensures EntryPhotos(es, i, EmptyRun, env)[k].fileType != "jpg"
    ensures '.' !in EntryPhotos(es, i, EmptyRun, env)[k].fileType
  {
    EntryPhotosAgree(es, EmptyRun, env, i, k);
    RunAfterValid(es, |es|, EmptyRun, env);
    var r := RunAfter(es, |es|, EmptyRun, env);
    var path := AttachmentPaths(es[i])[EntryPhotos(es, i, EmptyRun, env)[k].orderInEntry];
    assert path in r.order;
    var n :| 0 <= n < |r.order| && r.order[n] == path;
    assert r.files[path].ext == env.fileExtension(path);
    FileExtensionFacts(path);
  }

  /** Every descriptor's digest has a `photos/` member in the archive, taken from the first path with that digest. */
  lemma ArchiveCoversDescriptors(es: seq<Record>, env: Oracles, i: nat, k: nat)
    requires i < |es| && k < |EntryPhotos(es, i, EmptyRun, env)|
    ensures exists x :: 0 <= x < |RunAfter(es, |es|, EmptyRun, env).order|
              && FirstWithDigest(RunAfter(es, |es|, EmptyRun, env), x)
              && DigestAt(RunAfter(es, |es|, EmptyRun, env), x) == EntryPhotos(es, i, EmptyRun, env)[k].md5
              && PhotoMember(RunAfter(es, |es|, EmptyRun, env), x) in PhotoMembers(RunAfter(es, |es|, EmptyRun, env))
  {
    EntryPhotosAgree(es, EmptyRun, env, i, k);
    RunAfterValid(es, |es|, EmptyRun, env);
    var r := RunAfter(es, |es|, EmptyRun, env);
    var path := AttachmentPaths(es[i])[EntryPhotos(es, i, EmptyRun, env)[k].orderInEntry];
    assert path in r.order;
    var n :| 0 <= n < |r.order| && r.order[n] == path;
    PhotoMembersCoverDigest(r, n);
  }
}
