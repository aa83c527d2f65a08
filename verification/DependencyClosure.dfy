/** Which filesystem plugins get loaded: the configured ones and, transitively, the plugins they
    require that are available locally and not bundled. */
module DependencyClosure {
  import opened Results
  import opened Text
  import opened LoadOrder

  /** A parsed `bywaf.plugin.toml`, as far as dependencies are concerned. */
  datatype Manifest = Manifest(requiresPlugins: seq<string>)

  /** The directories below the plugin root that hold a manifest. */
  type Disk = map<string, Manifest>

  // ---------- provider addresses ----------

  function Replaced(path: string, from: char, to: char): (r: string)
    ensures |r| == |path|
    ensures forall i :: 0 <= i < |path| ==> r[i] == if path[i] == from then to else path[i]
  {
    seq(|path|, i requires 0 <= i < |path| => if path[i] == from then to else path[i])
  }

  /** `normalize_catalog_path`: dots become slashes, and no segment may be empty. */
  function Normalize(path: string): Result<string> {
    var normalized := Replaced(path, '.', '/');
    if "" in Fields(normalized, '/') then Error("invalid catalog path: " + path) else Ok(normalized)
  }

  lemma NormalizeIdempotent(path: string)
    requires Normalize(path).Ok?
    ensures Normalize(Normalize(path).value) == Normalize(path)
  {
    var normalized := Replaced(path, '.', '/');
    assert Replaced(normalized, '.', '/') == normalized;
  }

  predicate ProviderInGraph(base: set<string>, provider: string) {
    provider in base || Replaced(provider, '/', '.') in base || Replaced(provider, '.', '/') in base
  }

  // ---------- what an address says ----------

  /** Segments with a separator between any two. */
  function Spelling(segments: seq<string>, marks: string): string
    requires |segments| == |marks| + 1
  {
    if marks == "" then segments[0] else segments[0] + [marks[0]] + Spelling(segments[1..], marks[1..])
  }

  predicate AreMarks(marks: string) {
    forall i :: 0 <= i < |marks| ==> marks[i] == '.' || marks[i] == '/'
  }

  predicate AreSegments(segments: seq<string>) {
    forall i :: 0 <= i < |segments| ==> '.' !in segments[i] && '/' !in segments[i]
  }

  predicate AreNames(segments: seq<string>) {
    AreSegments(segments) && forall i :: 0 <= i < |segments| ==> segments[i] != ""
  }

  function Repeated(c: char, n: nat): (r: string)
    ensures |r| == n && forall i :: 0 <= i < n ==> r[i] == c
  {
    seq(n, i => c)
  }

  /** The directory whose segments those are. */
  function Directory(segments: seq<string>): string
    requires segments != []
  {
    Spelling(segments, Repeated('/', |segments| - 1))
  }

  lemma {:induction false} ReplacedSpelling(segments: seq<string>, marks: string, from: char, to: char)
    requires |segments| == |marks| + 1 && AreSegments(segments) && (from == '.' || from == '/')
    ensures Replaced(Spelling(segments, marks), from, to) == Spelling(segments, Replaced(marks, from, to))
  {
    if marks != "" {
      ReplacedSpelling(segments[1..], marks[1..], from, to);
      assert Replaced(marks, from, to)[1..] == Replaced(marks[1..], from, to);
    }
    assert Replaced(segments[0], from, to) == segments[0];
  }

  lemma {:induction false} FieldsOfDirectory(segments: seq<string>, marks: string)
    requires |segments| == |marks| + 1 && AreSegments(segments) && forall i :: 0 <= i < |marks| ==> marks[i] == '/'
    ensures Fields(Spelling(segments, marks), '/') == segments
  {
    if marks == "" {
      FieldsOfOne(segments[0], '/');
    } else {
      FieldsOfDirectory(segments[1..], marks[1..]);
      FieldsOfFront(segments[0], '/', Spelling(segments[1..], marks[1..]));
    }
  }

  /** An address names the directory of its segments, whatever mixture of dots and slashes separates them;
      it is refused exactly when a segment is empty. */
  lemma NormalizeMeans(segments: seq<string>, marks: string)
    requires |segments| == |marks| + 1 && AreSegments(segments) && AreMarks(marks)
    ensures if AreNames(segments) then Normalize(Spelling(segments, marks)) == Ok(Directory(segments))
      else Normalize(Spelling(segments, marks)).Error?
  {
    ReplacedSpelling(segments, marks, '.', '/');
    assert Replaced(marks, '.', '/') == Repeated('/', |marks|);
    FieldsOfDirectory(segments, Repeated('/', |marks|));
  }

  /** Every text is an address of that kind. */
  lemma {:induction false} EveryPathIsSpelled(path: string) returns (segments: seq<string>, marks: string)
    ensures |segments| == |marks| + 1 && AreSegments(segments) && AreMarks(marks) && Spelling(segments, marks) == path
  {
    if path == "" {
      segments, marks := [""], "";
    } else {
      var ss, ms := EveryPathIsSpelled(path[1..]);
      assert path == [path[0]] + path[1..];
      if path[0] == '.' || path[0] == '/' {
        segments, marks := [""] + ss, [path[0]] + ms;
        assert segments[1..] == ss && marks[1..] == ms;
      } else {
        segments, marks := [[path[0]] + ss[0]] + ss[1..], ms;
        LongerFirst(path[0], ss, ms);
      }
    }
  }

  lemma LongerFirst(c: char, segments: seq<string>, marks: string)
    requires |segments| == |marks| + 1
    ensures Spelling([[c] + segments[0]] + segments[1..], marks) == [c] + Spelling(segments, marks)
  {
    var longer := [[c] + segments[0]] + segments[1..];
    if marks != "" {
      assert longer[1..] == segments[1..];
      Associative([c], segments[0] + [marks[0]], Spelling(segments[1..], marks[1..]));
      Associative([c], segments[0], [marks[0]]);
    }
  }

  /** The graph has the address of the directory, with slashes or with dots. */
  predicate IsBundled(base: set<string>, segments: seq<string>)
    requires segments != []
  {
    Directory(segments) in base || Spelling(segments, Repeated('.', |segments| - 1)) in base
  }

  lemma BundledMeans(base: set<string>, segments: seq<string>)
    requires segments != [] && AreNames(segments)
    ensures ProviderInGraph(base, Directory(segments)) <==> IsBundled(base, segments)
  {
    var slashes := Repeated('/', |segments| - 1);
    ReplacedSpelling(segments, slashes, '/', '.');
    ReplacedSpelling(segments, slashes, '.', '/');
    assert Replaced(slashes, '/', '.') == Repeated('.', |segments| - 1) && Replaced(slashes, '.', '/') == slashes;
  }

  // ---------- what belongs to the closure ----------

  /** What the closure starts from. Address normalisation and membership in the bundled graph are
      carried as functions, so that the argument below does not depend on them. */
  datatype Setting = Setting(disk: Disk, entries: seq<string>, normalize: string -> Result<string>,
      bundled: string -> bool) {

    ghost predicate Sensible() {
      forall path :: normalize(path).Ok? ==> normalize(normalize(path).value) == normalize(path)
    }

    /** The manifest of an entry, looked up under its provider path and then as written. */
    function FilesystemManifest(entry: string, provider: string): Option<Manifest> {
      if provider in disk then Some(disk[provider])
      else if entry in disk then Some(disk[entry])
      else None
    }

    /** Entry `e`, read as written, holds the manifest of `p`. */
    predicate Written(e: string, p: string) {
      normalize(e) == Ok(p) && e in disk
    }

    function WrittenManifest(among: seq<string>, p: string): Option<Manifest> {
      if among == [] then None
      else if Written(among[0], p) then Some(disk[among[0]])
      else WrittenManifest(among[1..], p)
    }

    /** The manifest that stands for provider `p`: its own directory's, or else that of the first
        configured entry that spells it differently. */
    function ManifestOf(p: string): Option<Manifest> {
      if p in disk then Some(disk[p]) else WrittenManifest(entries, p)
    }

    /** `d` names a dependency that is loaded along: available locally and not bundled. */
    predicate LoadsAlong(d: string, q: string) {
      normalize(d) == Ok(q) && q in disk && !bundled(q)
    }

    ghost predicate Pulls(p: string, q: string) {
      ManifestOf(p).Some? && exists d :: d in ManifestOf(p).value.requiresPlugins && LoadsAlong(d, q)
    }

    ghost predicate Configured(p: string) {
      ManifestOf(p).Some? && exists e :: e in entries && normalize(e) == Ok(p)
    }

    ghost predicate Closed(s: set<string>) {
      (forall p :: Configured(p) ==> p in s) && (forall p, q :: p in s && Pulls(p, q) ==> q in s)
    }

    /** In the least closed set. */
    ghost predicate Needed(p: string) {
      forall s: set<string> :: Closed(s) ==> p in s
    }

    ghost predicate IsClosure(manifests: Disk) {
      forall p :: (p in manifests <==> Needed(p)) && (p in manifests ==> ManifestOf(p) == Some(manifests[p]))
    }

    ghost predicate InvalidRequirement(p: string) {
      ManifestOf(p).Some? && exists d :: d in ManifestOf(p).value.requiresPlugins && normalize(d).Error?
    }

    /** Something the closure has to look at is not a catalog path. */
    ghost predicate HasInvalidPath() {
      (exists e :: e in entries && normalize(e).Error?) || (exists p :: Needed(p) && InvalidRequirement(p))
    }

    // ---------- lemmas ----------

    lemma ConfiguredIsNeeded(p: string)
      requires Configured(p)
      ensures Needed(p)
    {
    }

    lemma PulledIsNeeded(p: string, q: string)
      requires Needed(p) && Pulls(p, q)
      ensures Needed(q)
    {
    }

    lemma {:induction false} FirstWritten(among: seq<string>, k: nat, p: string)
      requires k < |among| && Written(among[k], p)
      requires forall j :: 0 <= j < k ==> !Written(among[j], p)
      ensures WrittenManifest(among, p) == Some(disk[among[k]])
    {
      if k > 0 {
        FirstWritten(among[1..], k - 1, p);
      }
    }

    lemma {:induction false} SomeWritten(among: seq<string>, p: string)
      requires WrittenManifest(among, p).Some?
      ensures exists k :: 0 <= k < |among| && Written(among[k], p)
    {
      if !Written(among[0], p) {
        SomeWritten(among[1..], p);
        var k :| 0 <= k < |among[1..]| && Written(among[1..][k], p);
        assert Written(among[k + 1], p);
      }
    }
  }

  // ---------- the worklist ----------

  ghost predicate SomeInvalid(c: Setting, paths: seq<string>) {
    exists e :: e in paths && c.normalize(e).Error?
  }

  /** Some queued entry is an address of `q`. */
  ghost predicate Pending(c: Setting, queue: seq<string>, q: string) {
    exists e :: e in queue && c.normalize(e) == Ok(q)
  }

  method QueuedProviders(c: Setting, queue: seq<string>) returns (r: Result<set<string>>)
    ensures r.Error? ==> SomeInvalid(c, queue)
    ensures r.Ok? ==> forall q :: q in r.value ==> Pending(c, queue, q)
  {
    var providers: set<string> := {};
    for i := 0 to |queue|
      invariant forall q :: q in providers ==> Pending(c, queue, q)
    {
      var p := c.normalize(queue[i]);
      assert queue[i] in queue;
      if p.Error? {
        return Error(p.message);
      }
      providers := providers + {p.value};
    }
    return Ok(providers);
  }

  /** Queues the dependencies of one manifest that are to be loaded along. */
  method EnqueueDependencies(c: Setting, manifest: Manifest, queue: seq<string>, manifests: Disk)
    returns (r: Result<seq<string>>)
    requires c.Sensible()
    ensures r.Error? ==> SomeInvalid(c, queue) || SomeInvalid(c, manifest.requiresPlugins)
    ensures r.Ok? ==> forall d :: d in manifest.requiresPlugins ==> c.normalize(d).Ok?
    ensures r.Ok? ==> queue <= r.value
    ensures r.Ok? ==> forall e :: e in r.value[|queue|..] ==> c.normalize(e) == Ok(e)
    ensures r.Ok? ==> forall e :: e in r.value[|queue|..] ==>
      exists d :: d in manifest.requiresPlugins && c.LoadsAlong(d, e)
    ensures r.Ok? ==> forall d, q :: d in manifest.requiresPlugins && c.LoadsAlong(d, q) ==>
      q in manifests || Pending(c, r.value, q)
  {
    var queued := QueuedProviders(c, queue);
    if queued.Error? {
      return Error(queued.message);
    }
    var added: seq<string> := [];
    var required := manifest.requiresPlugins;
    for i := 0 to |required|
      invariant forall k :: 0 <= k < i ==> c.normalize(required[k]).Ok?
      invariant forall e :: e in added ==> c.normalize(e) == Ok(e) && exists d :: d in required && c.LoadsAlong(d, e)
      invariant forall k, q :: 0 <= k < i && c.LoadsAlong(required[k], q) ==>
        q in manifests || Pending(c, queue + added, q)
    {
      var d := required[i];
      assert d in required;
      var normalized := c.normalize(d);
      if normalized.Error? {
        return Error(normalized.message);
      }
      var q := normalized.value;
      if q in manifests || q in queued.value {
        PendingGrows(c, queue, added, q);
        continue;
      }
      if c.bundled(q) {
        continue;
      }
      if q in c.disk {
        assert c.LoadsAlong(d, q);
        ghost var shorter := queue + added;
        added := added + [q];
        assert queue + added == shorter + [q];
        AllPendingGrow(c, shorter, q);
      }
    }
    assert (queue + added)[|queue|..] == added;
    return Ok(queue + added);
  }

  lemma PendingGrows(c: Setting, queue: seq<string>, added: seq<string>, q: string)
    requires c.Sensible()
    ensures Pending(c, queue, q) ==> Pending(c, queue + added, q)
  {
    if Pending(c, queue, q) {
      var e :| e in queue && c.normalize(e) == Ok(q);
      assert e in queue + added;
    }
  }

  lemma AllPendingGrow(c: Setting, queue: seq<string>, q: string)
    requires c.normalize(q) == Ok(q)
    ensures forall x :: Pending(c, queue, x) ==> Pending(c, queue + [q], x)
    ensures Pending(c, queue + [q], q)
  {
    assert q in queue + [q];
    forall x | Pending(c, queue, x)
      ensures Pending(c, queue + [q], x)
    {
      var e :| e in queue && c.normalize(e) == Ok(x);
      assert e in queue + [q];
    }
  }

  /** What has been found so far is needed and is what should have been found. */
  ghost predicate Found(c: Setting, manifests: Disk) {
    forall p :: p in manifests ==>
      c.Needed(p) && c.ManifestOf(p) == Some(manifests[p]) && !SomeInvalid(c, manifests[p].requiresPlugins)
  }

  /** The first `k` configured entries have been dealt with. */
  ghost predicate Handled(c: Setting, manifests: Disk, known: set<string>, k: nat) {
    k <= |c.entries| && forall j :: 0 <= j < k ==> EntryHandled(c, manifests, known, c.entries[j])
  }

  ghost predicate EntryHandled(c: Setting, manifests: Disk, known: set<string>, e: string) {
    && c.normalize(e).Ok?
    && c.normalize(e).value in known
    && (c.FilesystemManifest(e, c.normalize(e).value).Some? ==> c.normalize(e).value in manifests)
  }

  /** The queue holds the other configured entries and then dependencies to be loaded along. */
  ghost predicate QueueIs(c: Setting, queue: seq<string>, k: nat) {
    && k <= |c.entries|
    && c.entries[k..] <= queue
    && forall e :: e in queue[|c.entries| - k..] ==> c.normalize(e) == Ok(e) && e in c.disk && c.Needed(e)
  }

  /** What a found manifest pulls in is found or queued. */
  ghost predicate Owed(c: Setting, manifests: Disk, queue: seq<string>) {
    forall p, d, q :: p in manifests && d in manifests[p].requiresPlugins && c.LoadsAlong(d, q) ==>
      q in manifests || Pending(c, queue, q)
  }

  lemma QueuedError(c: Setting, queue: seq<string>, k: nat)
    requires QueueIs(c, queue, k) && SomeInvalid(c, queue)
    ensures c.HasInvalidPath()
  {
    var e :| e in queue && c.normalize(e).Error?;
    var n := |c.entries| - k;
    assert queue == queue[..n] + queue[n..] && queue[..n] == c.entries[k..];
    assert e in c.entries[k..];
  }

  /** The next `k` after popping the queue. */
  function Popped(c: Setting, k: nat): nat {
    if k < |c.entries| then k + 1 else k
  }

  lemma PopQueue(c: Setting, queue: seq<string>, k: nat)
    requires QueueIs(c, queue, k) && queue != []
    ensures QueueIs(c, queue[1..], Popped(c, k))
    ensures if k < |c.entries| then queue[0] == c.entries[k]
            else c.normalize(queue[0]) == Ok(queue[0]) && queue[0] in c.disk && c.Needed(queue[0])
  {
    if k < |c.entries| {
      assert c.entries[k..][0] == c.entries[k];
      assert queue[1..][|c.entries| - (k + 1)..] == queue[|c.entries| - k..];
    } else {
      assert queue[0..][0] == queue[0];
      assert forall e :: e in queue[1..] ==> e in queue[0..];
    }
  }

  /** What is owed after popping an address of `p`, `p` itself aside. */
  ghost predicate OwedBut(c: Setting, manifests: Disk, queue: seq<string>, p: string) {
    forall x, d, q :: x in manifests && d in manifests[x].requiresPlugins && c.LoadsAlong(d, q) ==>
      q in manifests || q == p || Pending(c, queue, q)
  }

  lemma PopOwed(c: Setting, manifests: Disk, queue: seq<string>, p: string)
    requires Owed(c, manifests, queue) && queue != [] && c.normalize(queue[0]) == Ok(p)
    ensures OwedBut(c, manifests, queue[1..], p)
    ensures p in manifests || p !in c.disk ==> Owed(c, manifests, queue[1..])
  {
    forall q | Pending(c, queue, q) && q != p
      ensures Pending(c, queue[1..], q)
    {
      var e :| e in queue && c.normalize(e) == Ok(q);
      assert queue == [queue[0]] + queue[1..];
      assert e in queue[1..];
    }
  }

  lemma HandledMore(c: Setting, manifests: Disk, more: Disk, known: set<string>, wider: set<string>, k: nat)
    requires Handled(c, manifests, known, k) && manifests.Keys <= more.Keys && known <= wider
    requires k < |c.entries| ==> EntryHandled(c, more, wider, c.entries[k])
    ensures Handled(c, more, wider, Popped(c, k))
  {
    forall j | 0 <= j < Popped(c, k)
      ensures EntryHandled(c, more, wider, c.entries[j])
    {
      if j < k {
        assert EntryHandled(c, manifests, known, c.entries[j]);
      }
    }
  }

  /** A manifest found for the first time is the one that counts. */
  lemma FirstFound(c: Setting, manifests: Disk, known: set<string>, queue: seq<string>, k: nat, p: string)
    requires Handled(c, manifests, known, k) && QueueIs(c, queue, k) && queue != []
    requires c.normalize(queue[0]) == Ok(p) && p !in manifests
    requires c.FilesystemManifest(queue[0], p).Some?
    ensures c.Needed(p) && c.ManifestOf(p) == c.FilesystemManifest(queue[0], p)
  {
    PopQueue(c, queue, k);
    if k < |c.entries| {
      assert queue[0] in c.entries;
      if p !in c.disk {
        forall j | 0 <= j < k
          ensures !c.Written(c.entries[j], p)
        {
          assert EntryHandled(c, manifests, known, c.entries[j]);
        }
        c.FirstWritten(c.entries, k, p);
      }
      assert c.Configured(p);
    }
  }

  lemma AddFound(c: Setting, manifests: Disk, p: string, manifest: Manifest, rest: seq<string>, queue: seq<string>)
    requires OwedBut(c, manifests, rest, p) && rest <= queue
    requires forall d, q :: d in manifest.requiresPlugins && c.LoadsAlong(d, q) ==>
      q in manifests || q == p || Pending(c, queue, q)
    ensures Owed(c, manifests[p := manifest], queue)
  {
    forall q | Pending(c, rest, q)
      ensures Pending(c, queue, q)
    {
      var e :| e in rest && c.normalize(e) == Ok(q);
      assert e in queue;
    }
  }

  lemma ExtendQueue(c: Setting, rest: seq<string>, queue: seq<string>, k: nat, p: string, manifest: Manifest)
    requires QueueIs(c, rest, k) && rest <= queue
    requires c.Needed(p) && c.ManifestOf(p) == Some(manifest)
    requires forall e :: e in queue[|rest|..] ==> c.normalize(e) == Ok(e)
    requires forall e :: e in queue[|rest|..] ==> exists d :: d in manifest.requiresPlugins && c.LoadsAlong(d, e)
    ensures QueueIs(c, queue, k)
  {
    var n := |c.entries| - k;
    forall e | e in queue[n..]
      ensures c.normalize(e) == Ok(e) && e in c.disk && c.Needed(e)
    {
      assert queue[n..] == rest[n..] + queue[|rest|..];
      if e !in rest[n..] {
        assert e in queue[|rest|..];
        assert c.Pulls(p, e);
        c.PulledIsNeeded(p, e);
      }
    }
  }

  /** With the queue empty, what was found is the least closed set. */
  lemma FoundAll(c: Setting, manifests: Disk, known: set<string>)
    requires Found(c, manifests) && Handled(c, manifests, known, |c.entries|) && Owed(c, manifests, [])
    ensures c.IsClosure(manifests) && !c.HasInvalidPath()
  {
    forall p | c.Configured(p)
      ensures p in manifests
    {
      var e :| e in c.entries && c.normalize(e) == Ok(p);
      var j :| 0 <= j < |c.entries| && c.entries[j] == e;
      assert EntryHandled(c, manifests, known, c.entries[j]);
      if p !in c.disk {
        c.SomeWritten(c.entries, p);
        var i :| 0 <= i < |c.entries| && c.Written(c.entries[i], p);
        assert EntryHandled(c, manifests, known, c.entries[i]);
      }
    }
    assert c.Closed(manifests.Keys) by {
      forall p, q | p in manifests.Keys && c.Pulls(p, q)
        ensures q in manifests.Keys
      {
        var d :| d in c.ManifestOf(p).value.requiresPlugins && c.LoadsAlong(d, q);
        assert q in manifests || Pending(c, [], q);
      }
    }
    forall e | e in c.entries
      ensures c.normalize(e).Ok?
    {
      var j :| 0 <= j < |c.entries| && c.entries[j] == e;
      assert EntryHandled(c, manifests, known, c.entries[j]);
    }
    forall p | c.Needed(p)
      ensures p in manifests && !c.InvalidRequirement(p)
    {
      assert p in manifests.Keys;
      assert !SomeInvalid(c, manifests[p].requiresPlugins);
    }
  }

  /** The invariant of the worklist. */
  ghost predicate WorklistProgress(c: Setting, manifests: Disk, known: set<string>, queue: seq<string>, k: nat) {
    && Found(c, manifests)
    && Handled(c, manifests, known, k)
    && QueueIs(c, queue, k)
    && Owed(c, manifests, queue)
    && manifests.Keys <= known
  }

  lemma PoppedInvalid(c: Setting, manifests: Disk, known: set<string>, queue: seq<string>, k: nat)
    requires WorklistProgress(c, manifests, known, queue, k) && queue != [] && c.normalize(queue[0]).Error?
    ensures c.HasInvalidPath()
  {
    QueuedError(c, queue, k);
  }

  lemma PoppedWithoutManifest(c: Setting, manifests: Disk, known: set<string>, queue: seq<string>, k: nat, p: string)
    requires WorklistProgress(c, manifests, known, queue, k) && queue != [] && c.normalize(queue[0]) == Ok(p)
    requires p in manifests || c.FilesystemManifest(queue[0], p).None?
    ensures WorklistProgress(c, manifests, known + {p}, queue[1..], Popped(c, k))
  {
    PopQueue(c, queue, k);
    PopOwed(c, manifests, queue, p);
    HandledMore(c, manifests, manifests, known, known + {p}, k);
  }

  lemma PoppedWithManifest(c: Setting, manifests: Disk, known: set<string>, queue: seq<string>, k: nat, p: string,
                           manifest: Manifest, longer: seq<string>)
    requires WorklistProgress(c, manifests, known, queue, k) && queue != [] && c.normalize(queue[0]) == Ok(p)
    requires p !in manifests && c.FilesystemManifest(queue[0], p) == Some(manifest)
    requires queue[1..] <= longer
    requires forall d :: d in manifest.requiresPlugins ==> c.normalize(d).Ok?
    requires forall e :: e in longer[|queue[1..]|..] ==> c.normalize(e) == Ok(e)
    requires forall e :: e in longer[|queue[1..]|..] ==> exists d :: d in manifest.requiresPlugins && c.LoadsAlong(d, e)
    requires forall d, q :: d in manifest.requiresPlugins && c.LoadsAlong(d, q) ==>
      q in manifests[p := manifest] || Pending(c, longer, q)
    ensures WorklistProgress(c, manifests[p := manifest], known + {p}, longer, Popped(c, k))
  {
    var rest := queue[1..];
    FirstFound(c, manifests, known, queue, k, p);
    PopQueue(c, queue, k);
    PopOwed(c, manifests, queue, p);
    HandledMore(c, manifests, manifests[p := manifest], known, known + {p}, k);
    ExtendQueue(c, rest, longer, Popped(c, k), p, manifest);
    AddFound(c, manifests, p, manifest, rest, longer);
  }

  lemma EnqueueInvalid(c: Setting, manifests: Disk, known: set<string>, queue: seq<string>, k: nat, p: string,
      manifest: Manifest)
    requires WorklistProgress(c, manifests, known, queue, k) && queue != [] && c.normalize(queue[0]) == Ok(p)
    requires p !in manifests && c.FilesystemManifest(queue[0], p) == Some(manifest)
    requires SomeInvalid(c, queue[1..]) || SomeInvalid(c, manifest.requiresPlugins)
    ensures c.HasInvalidPath()
  {
    FirstFound(c, manifests, known, queue, k, p);
    PopQueue(c, queue, k);
    if SomeInvalid(c, queue[1..]) {
      QueuedError(c, queue[1..], Popped(c, k));
    } else {
      assert c.InvalidRequirement(p);
    }
  }

  datatype Collected = Collected(manifests: Disk, known: set<string>)

  /** The worklist of `fs_manifest_dep_closure`. It ends on every disk, fails exactly when a path it
      has to look at is invalid, and otherwise finds exactly the least closed set. */
  method CollectManifests(c: Setting) returns (r: Result<Collected>)
    requires c.Sensible()
    ensures r.Error? <==> c.HasInvalidPath()
    ensures r.Ok? ==> c.IsClosure(r.value.manifests) && r.value.manifests.Keys <= r.value.known
    ensures r.Ok? ==> forall e :: e in c.entries ==> c.normalize(e).Ok? && c.normalize(e).value in r.value.known
  {
    var queue := c.entries;
    var manifests: Disk := map[];
    var known: set<string> := {};
    ghost var k := 0;
    ghost var universe := Candidates(c);
    while queue != []
      invariant WorklistProgress(c, manifests, known, queue, k)
      invariant AllCandidates(c, universe)
      decreases universe - manifests.Keys, |queue|
    {
      var entry, rest := queue[0], queue[1..];
      var normalized := c.normalize(entry);
      if normalized.Error? {
        PoppedInvalid(c, manifests, known, queue, k);
        return Error(normalized.message);
      }
      var provider := normalized.value;
      if provider in manifests {
        PoppedWithoutManifest(c, manifests, known, queue, k, provider);
        assert known + {provider} == known;
        queue, k := rest, Popped(c, k);
        continue;
      }
      var found := c.FilesystemManifest(entry, provider);
      if found.None? {
        PoppedWithoutManifest(c, manifests, known, queue, k, provider);
        queue, known, k := rest, known + {provider}, Popped(c, k);
        continue;
      }
      IsCandidate(c, queue, k, provider, universe);
      var longer := EnqueueDependencies(c, found.value, rest, manifests[provider := found.value]);
      if longer.Error? {
        EnqueueInvalid(c, manifests, known, queue, k, provider, found.value);
        return Error(longer.message);
      }
      PoppedWithManifest(c, manifests, known, queue, k, provider, found.value, longer.value);
      queue, manifests, known, k := longer.value, manifests[provider := found.value], known + {provider}, Popped(c, k);
    }
    FoundAll(c, manifests, known);
    EntriesKnown(c, manifests, known);
    return Ok(Collected(manifests, known));
  }

  ghost predicate AllCandidates(c: Setting, universe: set<string>) {
    c.disk.Keys <= universe && forall e :: e in c.entries && c.normalize(e).Ok? ==> c.normalize(e).value in universe
  }

  /** A finite set that holds every provider the worklist can ever find. */
  lemma Candidates(c: Setting) returns (universe: set<string>)
    ensures AllCandidates(c, universe)
  {
    universe := c.disk.Keys + (set e | e in c.entries && c.normalize(e).Ok? :: c.normalize(e).value);
  }

  lemma IsCandidate(c: Setting, queue: seq<string>, k: nat, p: string, universe: set<string>)
    requires QueueIs(c, queue, k) && queue != [] && c.normalize(queue[0]) == Ok(p) && AllCandidates(c, universe)
    ensures p in universe
  {
    PopQueue(c, queue, k);
    if k < |c.entries| {
      assert c.entries[k] in c.entries;
    }
  }

  lemma EntriesKnown(c: Setting, manifests: Disk, known: set<string>)
    requires Handled(c, manifests, known, |c.entries|)
    ensures forall e :: e in c.entries ==> c.normalize(e).Ok? && c.normalize(e).value in known
  {
    forall e | e in c.entries
      ensures c.normalize(e).Ok? && c.normalize(e).value in known
    {
      var j :| 0 <= j < |c.entries| && c.entries[j] == e;
      assert EntryHandled(c, manifests, known, c.entries[j]);
    }
  }

  // ---------- closure and order together ----------

  function Address(c: Setting, path: string): string {
    match c.normalize(path)
    case Ok(p) => p
    case Error(_) => path
  }

  function Addresses(c: Setting, paths: seq<string>): (r: seq<string>)
    ensures |r| == |paths| && forall i :: 0 <= i < |paths| ==> r[i] == Address(c, paths[i])
  {
    seq(|paths|, i requires 0 <= i < |paths| => Address(c, paths[i]))
  }

  /** What each loaded provider requires, as normalised addresses. */
  function Graph(c: Setting, manifests: Disk): Requirements {
    map p | p in manifests :: Addresses(c, manifests[p].requiresPlugins)
  }

  function Config(disk: Disk, entries: seq<string>, base: set<string>): Setting {
    Setting(disk, entries, path => Normalize(path), p => ProviderInGraph(base, p))
  }

  lemma ConfigSensible(disk: Disk, entries: seq<string>, base: set<string>)
    ensures Config(disk, entries, base).Sensible()
  {
    var c := Config(disk, entries, base);
    forall path | c.normalize(path).Ok?
      ensures c.normalize(c.normalize(path).value) == c.normalize(path)
    {
      NormalizeIdempotent(path);
    }
  }

  lemma ClosureIsUnique(c: Setting, a: Disk, b: Disk)
    requires c.IsClosure(a) && c.IsClosure(b)
    ensures a == b
  {
    assert forall p :: p in a <==> p in b;
  }

  /** Everything in the closure is reached from the configured entries, so the last pass over all
      manifests finds nothing new. */
  lemma ClosureIsReached(c: Setting, manifests: Disk, p: string)
    requires c.IsClosure(manifests) && p in manifests
    ensures ReachedFrom(Graph(c, manifests), Addresses(c, c.entries), p)
  {
    var g, roots := Graph(c, manifests), Addresses(c, c.entries);
    var reached := set x | x in manifests && ReachedFrom(g, roots, x);
    forall x | c.Configured(x)
      ensures x in reached
    {
      c.ConfiguredIsNeeded(x);
      var e :| e in c.entries && c.normalize(e) == Ok(x);
      var i :| 0 <= i < |c.entries| && c.entries[i] == e;
      assert roots[i] == x;
      ReachSelf(g, x);
    }
    forall x, y | x in reached && c.Pulls(x, y)
      ensures y in reached
    {
      c.PulledIsNeeded(x, y);
      var d :| d in c.ManifestOf(x).value.requiresPlugins && c.LoadsAlong(d, y);
      var required := manifests[x].requiresPlugins;
      var i :| 0 <= i < |required| && required[i] == d;
      assert g[x][i] == y;
      assert Edge(g, x, y);
      var root :| root in roots && root in g && Reach(g, root, x);
      ReachEdge(g, root, x, y);
    }
    assert c.Closed(reached);
  }

  lemma ReachEdge(g: Requirements, p: string, x: string, y: string)
    requires Reach(g, p, x) && Edge(g, x, y)
    ensures Reach(g, p, y)
  {
    var path :| IsPath(g, path) && path[0] == p && path[|path| - 1] == x;
    assert IsPath(g, path + [y]);
  }

  datatype Closure = Closure(ordered: seq<string>, manifests: Disk)

  /** Some closure exists and its requirements are cyclic. */
  ghost predicate HasRequirementCycle(c: Setting) {
    exists manifests :: c.IsClosure(manifests) && HasCycle(Graph(c, manifests))
  }

  /** The provider is loaded with its own directory's manifest. */
  predicate Loaded(disk: Disk, closure: Closure, p: string) {
    p in disk && p in closure.manifests && closure.manifests[p] == disk[p] && p in closure.ordered
  }

  ghost predicate ListedBefore(ordered: seq<string>, q: string, p: string) {
    forall i :: 0 <= i < |ordered| && ordered[i] == p ==> q in ordered[..i]
  }

  ghost predicate LoadedWhenRequired(disk: Disk, closure: Closure, path: string, q: string) {
    forall p :: p in closure.manifests && path in closure.manifests[p].requiresPlugins ==>
      Loaded(disk, closure, q) && ListedBefore(closure.ordered, q, p)
  }

  /** A configured entry loads the manifest in the directory it names, however it is spelled; so does, and
      earlier, what a loaded manifest requires, unless it is bundled. */
  ghost predicate LoadsWhatIsNamed(disk: Disk, entries: seq<string>, base: set<string>, closure: Closure) {
    forall segments: seq<string>, marks: string ::
      |segments| == |marks| + 1 && AreNames(segments) && AreMarks(marks) && Directory(segments) in disk ==>
      && (Spelling(segments, marks) in entries ==> Loaded(disk, closure, Directory(segments)))
      && (!IsBundled(base, segments) ==>
            LoadedWhenRequired(disk, closure, Spelling(segments, marks), Directory(segments)))
  }

  /** Entry `k` names provider `p`, and a directory of that very spelling holds a manifest. */
  ghost predicate IsAsWritten(disk: Disk, entries: seq<string>, k: int, p: string) {
    0 <= k < |entries| && entries[k] in disk && Names(entries[k], p)
  }

  ghost predicate IsFirstAsWritten(disk: Disk, entries: seq<string>, k: int, p: string) {
    IsAsWritten(disk, entries, k, p) && forall j :: 0 <= j < k ==> !IsAsWritten(disk, entries, j, p)
  }

  /** A provider without a directory of its own takes the manifest of the first entry for which a directory
      has the entry's spelling. */
  ghost predicate LoadsAsWritten(disk: Disk, entries: seq<string>, closure: Closure) {
    forall p, k :: p !in disk && IsFirstAsWritten(disk, entries, k, p) ==>
      p in closure.manifests && closure.manifests[p] == disk[entries[k]]
  }

  /** An address of provider `p`. */
  ghost predicate Names(path: string, p: string) {
    exists segments: seq<string>, marks: string ::
      |segments| == |marks| + 1 && AreNames(segments) && AreMarks(marks)
      && path == Spelling(segments, marks) && p == Directory(segments)
  }

  /** Nothing else is loaded. */
  ghost predicate LoadsNothingElse(entries: seq<string>, closure: Closure) {
    forall p :: p in closure.manifests ==>
      || (exists e :: e in entries && Names(e, p))
      || exists q, d :: q in closure.manifests && d in closure.manifests[q].requiresPlugins && Names(d, p)
  }

  lemma NormalizeNames(path: string, p: string)
    ensures Normalize(path) == Ok(p) <==> Names(path, p)
  {
    if Normalize(path) == Ok(p) {
      var segments, marks := EveryPathIsSpelled(path);
      NormalizeMeans(segments, marks);
    }
    if Names(path, p) {
      var segments: seq<string>, marks: string :|
        |segments| == |marks| + 1 && AreNames(segments) && AreMarks(marks)
        && path == Spelling(segments, marks) && p == Directory(segments);
      NormalizeMeans(segments, marks);
    }
  }

  lemma EntryIsLoaded(disk: Disk, entries: seq<string>, base: set<string>, manifests: Disk, e: string, p: string)
    requires Config(disk, entries, base).IsClosure(manifests)
    requires e in entries && Normalize(e) == Ok(p) && p in disk
    ensures p in manifests && manifests[p] == disk[p]
  {
    var c := Config(disk, entries, base);
    assert c.Configured(p);
    c.ConfiguredIsNeeded(p);
  }

  lemma RequirementIsLoaded(disk: Disk, entries: seq<string>, base: set<string>, manifests: Disk, p: string,
      d: string, q: string)
    requires Config(disk, entries, base).IsClosure(manifests)
    requires p in manifests && d in manifests[p].requiresPlugins && Normalize(d) == Ok(q)
    requires q in disk && !ProviderInGraph(base, q)
    ensures q in manifests && manifests[q] == disk[q]
    ensures Edge(Graph(Config(disk, entries, base), manifests), p, q)
  {
    var c := Config(disk, entries, base);
    assert c.LoadsAlong(d, q);
    assert c.Pulls(p, q);
    c.PulledIsNeeded(p, q);
    var required := manifests[p].requiresPlugins;
    var i :| 0 <= i < |required| && required[i] == d;
    assert Graph(c, manifests)[p][i] == q;
  }

  lemma ClosureLoadsWhatIsNamed(disk: Disk, entries: seq<string>, base: set<string>, closure: Closure)
    requires Config(disk, entries, base).IsClosure(closure.manifests)
    requires IsLoadOrder(Graph(Config(disk, entries, base), closure.manifests), closure.ordered)
    requires forall p :: p in closure.manifests ==> p in closure.ordered
    ensures LoadsWhatIsNamed(disk, entries, base, closure)
  {
    var g := Graph(Config(disk, entries, base), closure.manifests);
    LoadOrderMeans(g, closure.ordered);
    forall segments: seq<string>, marks: string |
      |segments| == |marks| + 1 && AreNames(segments) && AreMarks(marks) && Directory(segments) in disk
      ensures Spelling(segments, marks) in entries ==> Loaded(disk, closure, Directory(segments))
      ensures !IsBundled(base, segments) ==>
        LoadedWhenRequired(disk, closure, Spelling(segments, marks), Directory(segments))
    {
      var path, q := Spelling(segments, marks), Directory(segments);
      NormalizeMeans(segments, marks);
      BundledMeans(base, segments);
      if path in entries {
        EntryIsLoaded(disk, entries, base, closure.manifests, path, q);
      }
      forall p | p in closure.manifests && path in closure.manifests[p].requiresPlugins && !ProviderInGraph(base, q)
        ensures Loaded(disk, closure, q) && ListedBefore(closure.ordered, q, p)
      {
        RequirementIsLoaded(disk, entries, base, closure.manifests, p, path, q);
      }
    }
  }

  lemma ClosureLoadsNothingElse(disk: Disk, entries: seq<string>, base: set<string>, closure: Closure)
    requires Config(disk, entries, base).IsClosure(closure.manifests)
    ensures LoadsNothingElse(entries, closure)
  {
    var c, manifests := Config(disk, entries, base), closure.manifests;
    forall p | p in manifests
      ensures (exists e :: e in entries && Names(e, p))
           || exists q, d :: q in manifests && d in manifests[q].requiresPlugins && Names(d, p)
    {
      if c.Configured(p) {
        var e :| e in entries && c.normalize(e) == Ok(p);
        NormalizeNames(e, p);
      } else {
        var q := PulledBy(c, manifests, p);
        var d :| d in c.ManifestOf(q).value.requiresPlugins && c.LoadsAlong(d, p);
        NormalizeNames(d, p);
      }
    }
  }

  lemma ClosureLoadsAsWritten(disk: Disk, entries: seq<string>, base: set<string>, closure: Closure)
    requires Config(disk, entries, base).IsClosure(closure.manifests)
    ensures LoadsAsWritten(disk, entries, closure)
  {
    var c := Config(disk, entries, base);
    forall p, k | p !in disk && IsFirstAsWritten(disk, entries, k, p)
      ensures p in closure.manifests && closure.manifests[p] == disk[entries[k]]
    {
      forall j | 0 <= j < |entries|
        ensures c.Written(entries[j], p) <==> IsAsWritten(disk, entries, j, p)
      {
        NormalizeNames(entries[j], p);
      }
      c.FirstWritten(entries, k, p);
      assert entries[k] in entries;
      assert c.Configured(p);
      c.ConfiguredIsNeeded(p);
    }
  }

  /** Without what pulls it in, a provider could be left out. */
  lemma {:induction false} LeftOut(c: Setting, manifests: Disk, p: string)
    requires c.IsClosure(manifests) && !c.Configured(p)
    requires forall q :: q in manifests ==> !c.Pulls(q, p)
    ensures c.Closed(manifests.Keys - {p})
  {
    var s := manifests.Keys - {p};
    forall x, y | x in s && c.Pulls(x, y)
      ensures y in s
    {
      c.PulledIsNeeded(x, y);
    }
    forall x | c.Configured(x)
      ensures x in s
    {
      c.ConfiguredIsNeeded(x);
    }
  }

  lemma {:induction false} PulledBy(c: Setting, manifests: Disk, p: string) returns (q: string)
    requires c.IsClosure(manifests) && p in manifests && !c.Configured(p)
    ensures q in manifests && c.Pulls(q, p)
  {
    if forall q :: q in manifests ==> !c.Pulls(q, p) {
      LeftOut(c, manifests, p);
      assert false;
    }
    q :| q in manifests && c.Pulls(q, p);
  }

  /** `fs_manifest_dep_closure` without the validation of missing dependencies. */
  method FsManifestDepClosure(disk: Disk, entries: seq<string>, base: set<string>) returns (r: Result<Closure>)
    ensures r.Error? <==>
      Config(disk, entries, base).HasInvalidPath() || HasRequirementCycle(Config(disk, entries, base))
    ensures r.Ok? ==> var c, g := Config(disk, entries, base), Graph(Config(disk, entries, base), r.value.manifests);
      && c.IsClosure(r.value.manifests)
      && IsLoadOrder(g, r.value.ordered)
      && (forall p :: p in g ==> p in r.value.ordered && ReachedFrom(g, Addresses(c, entries), p))
      && CutsUpTo(g, r.value.ordered, Addresses(c, entries), |entries|)
    ensures r.Ok? ==> LoadsWhatIsNamed(disk, entries, base, r.value)
    ensures r.Ok? ==> LoadsAsWritten(disk, entries, r.value) && LoadsNothingElse(entries, r.value)
  {
    var c := Config(disk, entries, base);
    ConfigSensible(disk, entries, base);
    var collected := CollectManifests(c);
    if collected.Error? {
      return Error(collected.message);
    }
    var manifests := collected.value.manifests;
    var g := Graph(c, manifests);
    forall m | c.IsClosure(m)
      ensures m == manifests
    {
      ClosureIsUnique(c, m, manifests);
    }
    var ordered := TopologicalFilesystemEntries(Addresses(c, entries), g, collected.value.known);
    if ordered.Error? {
      return Error(ordered.message);
    }
    forall p | p in g
      ensures ReachedFrom(g, Addresses(c, entries), p)
    {
      ClosureIsReached(c, manifests, p);
    }
    ClosureLoadsWhatIsNamed(disk, entries, base, Closure(ordered.value, manifests));
    ClosureLoadsAsWritten(disk, entries, base, Closure(ordered.value, manifests));
    ClosureLoadsNothingElse(disk, entries, base, Closure(ordered.value, manifests));
    return Ok(Closure(ordered.value, manifests));
  }
}
