/** Building and verifying a staged source snapshot
    (scripts/stage-beta-source.py:78-169). The hash is a parameter. */
module Snapshot {
  import opened Bytes
  import opened Wrappers
  import opened Framing

  type Path = seq<byte>

  /** Anything in a tree that is not a directory. */
  datatype Item = Regular(data: seq<byte>) | Link(target: seq<byte>) | Special

  type Tree = map<Path, Item>

  type Hash = seq<byte> -> seq<byte>

  datatype Record = Record(path: Path, digest: seq<byte>, size: nat)

  datatype Manifest = Manifest(fingerprint: seq<byte>, files: seq<Record>)

  datatype VerifyError = InvalidPath | MissingFile | Mismatch | Unlisted | FingerprintMismatch

  const SLASH: byte := 47
  const DOT: byte := 46

  /** The bytes that are hashed: a file's content or a link's target. */
  function Payload(item: Item): Option<seq<byte>> {
    match item
    case Regular(data) => Some(data)
    case Link(target) => Some(target)
    case Special => None
  }

  predicate HasPayload(tree: Tree, p: Path) {
    p in tree && Payload(tree[p]).Some?
  }

  /** The text between slashes, in order; at least one, maybe empty. */
  function Split(p: Path): (parts: seq<Path>)
    ensures parts != []
  {
    if p == [] then [[]]
    else if p[0] == SLASH then [[]] + Split(p[1..])
    else [[p[0]] + Split(p[1..])[0]] + Split(p[1..])[1..]
  }

  /** Without the parts that lead nowhere: empty ones and single dots. */
  function Kept(parts: seq<Path>): (kept: seq<Path>)
    ensures forall part :: part in kept <==> part in parts && part != [] && part != [DOT]
  {
    if parts == [] then []
    else if parts[0] == [] || parts[0] == [DOT] then Kept(parts[1..])
    else [parts[0]] + Kept(parts[1..])
  }

  function Joined(parts: seq<Path>): Path {
    if parts == [] then [] else if |parts| == 1 then parts[0] else parts[0] + [SLASH] + Joined(parts[1..])
  }

  /** The place a relative path leads to, spelled the one way a tree does. */
  function Place(p: Path): Path {
    Joined(Kept(Split(p)))
  }

  /** A relative path without a `..` part. */
  predicate PathOk(p: Path) {
    !(|p| > 0 && p[0] == SLASH) && [DOT, DOT] !in Split(p)
  }

  /** The parts are what the slashes separate, so they are pinned by giving back
      the path; a path is bad if it starts at the root or goes up anywhere. */
  lemma {:induction false} PartsJoin(p: Path)
    ensures Joined(Split(p)) == p
    ensures forall part :: part in Split(p) ==> 47 !in part
  {
    hide Joined;
    if p == [] {
      OnePart([]);
    } else {
      PartsJoin(p[1..]);
      assert p == [p[0]] + p[1..];
      if p[0] == SLASH {
        JoinedSlash(Split(p[1..]));
      } else {
        JoinedMore(p[0], Split(p[1..]));
      }
    }
  }

  lemma OnePart(part: Path)
    ensures Joined([part]) == part
  {
  }

  lemma JoinedSlash(rest: seq<Path>)
    requires rest != []
    ensures Joined([[]] + rest) == [47] + Joined(rest)
  {
    assert ([[]] + rest)[1..] == rest && [] + [SLASH] == [47];
  }

  lemma JoinedMore(c: byte, rest: seq<Path>)
    requires rest != []
    ensures Joined([[c] + rest[0]] + rest[1..]) == [c] + Joined(rest)
  {
    var more := [[c] + rest[0]] + rest[1..];
    assert more[1..] == rest[1..];
    if |rest| > 1 {
      assert [c] + rest[0] + [SLASH] + Joined(rest[1..]) == [c] + (rest[0] + [SLASH] + Joined(rest[1..]));
    }
  }

  lemma PathOkMeans(p: Path)
    ensures PathOk(p) <==> (p == [] || p[0] != 47) && [46, 46] !in Split(p)
  {
  }

  lemma SplitSlash(rest: Path)
    ensures Split([47] + rest) == [[]] + Split(rest)
  {
    assert ([47] + rest)[1..] == rest;
  }

  lemma SplitMore(c: byte, rest: Path)
    requires c != 47
    ensures Split([c] + rest) == [[c] + Split(rest)[0]] + Split(rest)[1..]
  {
    assert ([c] + rest)[1..] == rest;
  }

  lemma {:induction false} SplitCut(a: Path, b: Path)
    ensures Split(a + [47] + b) == Split(a) + Split(b)
  {
    NoSlash([]);
    hide Split;
    if a == [] {
      SplitSlash(b);
      assert a + [47] + b == [47] + b;
    } else {
      SplitCut(a[1..], b);
      FirstByte(a, b);
      if a[0] == 47 {
        SplitSlash(a[1..]);
        SplitSlash(a[1..] + [47] + b);
        Associative([[]], Split(a[1..]), Split(b));
      } else {
        SplitMore(a[0], a[1..]);
        SplitMore(a[0], a[1..] + [47] + b);
        FirstLonger(a[0], Split(a[1..]), Split(b));
      }
    }
  }

  lemma FirstByte(a: Path, b: Path)
    requires a != []
    ensures a == [a[0]] + a[1..] && a + [47] + b == [a[0]] + (a[1..] + [47] + b)
  {
  }

  lemma Associative<T>(a: seq<T>, b: seq<T>, c: seq<T>)
    ensures a + (b + c) == a + b + c
  {
  }

  lemma FirstLonger(c: byte, left: seq<Path>, right: seq<Path>)
    requires left != []
    ensures [[c] + (left + right)[0]] + (left + right)[1..] == [[c] + left[0]] + left[1..] + right
  {
    assert (left + right)[1..] == left[1..] + right;
  }

  lemma {:induction false} KeptAppend(a: seq<Path>, b: seq<Path>)
    ensures Kept(a + b) == Kept(a) + Kept(b)
  {
    if a == [] {
      assert a + b == b;
    } else {
      assert (a + b)[1..] == a[1..] + b;
      KeptAppend(a[1..], b);
    }
  }

  /** A doubled slash, or a dot between slashes, leads nowhere else. */
  lemma NoiseDropped(a: Path, b: Path)
    ensures Place(a + [47, 47] + b) == Place(a + [47] + b)
    ensures Place(a + [47, 46, 47] + b) == Place(a + [47] + b)
  {
    hide Split, Kept, Joined;
    SplitCut(a, b);
    KeptAppend(Split(a), Split(b));
    NoSlash([]);
    NoSlash([46]);
    NothingKept();
    NothingBetween(a, [], b);
    NothingBetween(a, [46], b);
    assert a + [47] + ([] + [47] + b) == a + [47, 47] + b;
    assert a + [47] + ([46] + [47] + b) == a + [47, 46, 47] + b;
  }

  lemma NothingKept()
    ensures Kept([[]]) == [] && Kept([[46]]) == []
  {
  }

  lemma NothingBetween(a: Path, middle: Path, b: Path)
    requires Split(middle) == [middle] && Kept([middle]) == []
    ensures Kept(Split(a + [47] + (middle + [47] + b))) == Kept(Split(a)) + Kept(Split(b))
  {
    hide Split, Kept;
    SplitCut(a, middle + [47] + b);
    SplitCut(middle, b);
    KeptAppend(Split(a), [middle] + Split(b));
    KeptAppend([middle], Split(b));
    assert [] + Kept(Split(b)) == Kept(Split(b));
  }

  predicate Clean(parts: seq<Path>) {
    forall part :: part in parts ==> part != [] && part != [46] && 47 !in part
  }

  lemma {:induction false} NoSlash(part: Path)
    requires 47 !in part
    ensures Split(part) == [part]
  {
    if part != [] {
      assert forall c :: c in part[1..] ==> c in part;
      NoSlash(part[1..]);
      assert part == [part[0]] + part[1..];
    }
  }

  lemma {:induction false} SplitJoined(parts: seq<Path>)
    requires Clean(parts) && parts != []
    ensures Split(Joined(parts)) == parts
  {
    assert parts[0] in parts && forall part :: part in parts[1..] ==> part in parts;
    NoSlash(parts[0]);
    if |parts| > 1 {
      SplitJoined(parts[1..]);
      SplitCut(parts[0], Joined(parts[1..]));
    }
  }

  lemma {:induction false} AllKept(parts: seq<Path>)
    requires Clean(parts)
    ensures Kept(parts) == parts
  {
    if parts != [] {
      assert parts[0] in parts && forall part :: part in parts[1..] ==> part in parts;
      AllKept(parts[1..]);
    }
  }

  /** And a path spelled plainly leads to the place of that name. */
  lemma PlainPlace(parts: seq<Path>)
    requires Clean(parts)
    ensures Place(Joined(parts)) == Joined(parts)
  {
    if parts != [] {
      SplitJoined(parts);
      AllKept(parts);
    }
  }

  function RecordOf(sha: Hash, tree: Tree, p: Path): Record
    requires HasPayload(tree, p)
  {
    var payload := Payload(tree[p]).value;
    Record(p, sha(payload), |payload|)
  }

  function Line(r: Record): seq<byte> {
    r.path + [0] + r.digest
  }

  /** What the fingerprint is updated with. */
  function Lines(records: seq<Record>): seq<byte> {
    if records == [] then [] else Lines(records[..|records| - 1]) + Line(records[|records| - 1])
  }

  /** The listed items of a tree, as they are. */
  function Copy(root: Tree, paths: seq<Path>): Tree
    requires forall p :: p in paths ==> p in root
  {
    map p | p in paths :: root[p]
  }

  lemma CopyOneMore(root: Tree, paths: seq<Path>, i: nat)
    requires (forall p :: p in paths ==> p in root) && i < |paths|
    ensures Copy(root, paths[..i + 1]) == Copy(root, paths[..i])[paths[i] := root[paths[i]]]
  {
    assert forall p :: p in paths[..i + 1] <==> p in paths[..i] || p == paths[i];
  }

  /** `build_snapshot`: copy the listed items, record them, fingerprint them. */
  method BuildSnapshot(sha: Hash, root: Tree, paths: seq<Path>) returns (staged: Tree, manifest: Manifest)
    requires forall p :: p in paths ==> p in root && !root[p].Special?
    ensures staged == Copy(root, paths)
    ensures |manifest.files| == |paths|
    ensures forall i :: 0 <= i < |paths| ==> manifest.files[i] == RecordOf(sha, root, paths[i])
    ensures manifest.fingerprint == sha(Lines(manifest.files))
  {
    hide Copy, Lines;
    NothingYet(root, paths);
    staged := map[];
    var records: seq<Record> := [];
    var fed: seq<byte> := [];
    for i := 0 to |paths|
      invariant staged == Copy(root, paths[..i])
      invariant |records| == i && fed == Lines(records)
      invariant forall k :: 0 <= k < i ==> records[k] == RecordOf(sha, root, paths[k])
    {
      var relative := paths[i];
      var payload;
      match root[relative] {
        case Link(target) =>
          staged := staged[relative := Link(target)];
          payload := target;
        case Regular(data) =>
          staged := staged[relative := Regular(data)];
          payload := data;
      }
      var digest := sha(payload);
      fed := fed + (relative + [0] + digest);
      CopyOneMore(root, paths, i);
      LinesOneMore(records, Record(relative, digest, |payload|));
      records := records + [Record(relative, digest, |payload|)];
    }
    assert paths[..|paths|] == paths;
    manifest := Manifest(sha(fed), records);
  }

  lemma NothingYet(root: Tree, paths: seq<Path>)
    requires forall p :: p in paths ==> p in root
    ensures Copy(root, paths[..0]) == map[] && Lines([]) == []
  {
  }

  lemma LinesOneMore(records: seq<Record>, r: Record)
    ensures Lines(records + [r]) == Lines(records) + Line(r)
  {
    assert (records + [r])[..|records|] == records;
  }

  // ------------------------------------------------------------ verification

  /** The links a later verification may find beside the listed files. */
  type Artifacts = map<Path, set<seq<byte>>>

  /** The two links the native checker makes, in the home directory of its user. */
  function ArtifactLinks(home: seq<byte>): Artifacts {
    map[Ascii("target") := {home + Ascii("/rmac/target")},
        Ascii("shell/target") := {home + Ascii("/rmac/shell/target"), home + Ascii("/rmac-wt/shell/target")}]
  }

  predicate KnownArtifact(links: Artifacts, p: Path, item: Item) {
    item.Link? && p in links && item.target in links[p]
  }

  /** The record's path leads to an item of the recorded size and digest. */
  predicate Matches(sha: Hash, tree: Tree, r: Record) {
    HasPayload(tree, Place(r.path)) && Agrees(sha, r, tree[Place(r.path)])
  }

  predicate Agrees(sha: Hash, r: Record, item: Item) {
    Payload(item).Some? && |Payload(item).value| == r.size && sha(Payload(item).value) == r.digest
  }

  predicate Distinct(records: seq<Record>) {
    forall i, j :: 0 <= i < j < |records| ==> records[i].path != records[j].path
  }

  lemma Agreement(sha: Hash, r: Record, item: Item)
    ensures Agrees(sha, r, item)
            <==> Payload(item).Some? && |Payload(item).value| == r.size && sha(Payload(item).value) == r.digest
  {
  }

  /** Some record leads to `p`, however it spells it. */
  ghost predicate IsReached(records: seq<Record>, p: Path) {
    exists i :: 0 <= i < |records| && Place(records[i].path) == p
  }

  ghost predicate IsListed(records: seq<Record>, p: Path) {
    exists i :: 0 <= i < |records| && records[i].path == p
  }

  /** Exactly the recorded paths with exactly the recorded content, besides
      known artifact links, under the recorded fingerprint. */
  ghost predicate Accepts(sha: Hash, manifest: Manifest, tree: Tree, links: Artifacts) {
    && (forall i :: 0 <= i < |manifest.files| ==>
          PathOk(manifest.files[i].path) && Matches(sha, tree, manifest.files[i]))
    && Distinct(manifest.files)
    && (forall p :: p in tree ==> IsListed(manifest.files, p) || KnownArtifact(links, p, tree[p]))
    && sha(Lines(manifest.files)) == manifest.fingerprint
  }

  /** Record `i` is the first that fails, and it fails in this way. */
  ghost predicate RecordFails(sha: Hash, records: seq<Record>, tree: Tree, i: nat, error: VerifyError) {
    && i < |records| && Distinct(records[..i])
    && (forall k :: 0 <= k < i ==> PathOk(records[k].path) && Matches(sha, tree, records[k]))
    && var p := records[i].path; var pathBad := !PathOk(p) || IsListed(records[..i], p);
       match error
       case InvalidPath => pathBad
       case MissingFile => !pathBad && !HasPayload(tree, Place(p))
       case Mismatch => !pathBad && HasPayload(tree, Place(p)) && !Agrees(sha, records[i], tree[Place(p)])
       case _ => false
  }

  /** The error names what is wrong, the records being checked first, then the
      tree, then the fingerprint. */
  ghost predicate Explains(sha: Hash, manifest: Manifest, tree: Tree, links: Artifacts, error: VerifyError) {
    var unlisted := exists p :: p in tree && !IsListed(manifest.files, p) && !KnownArtifact(links, p, tree[p]);
    if error == Unlisted || error == FingerprintMismatch then
      && Distinct(manifest.files)
      && (forall i :: 0 <= i < |manifest.files| ==>
            PathOk(manifest.files[i].path) && Matches(sha, tree, manifest.files[i]))
      && (error == Unlisted <==> unlisted)
      && (error == FingerprintMismatch ==> sha(Lines(manifest.files)) != manifest.fingerprint)
    else
      exists i :: RecordFails(sha, manifest.files, tree, i, error)
  }

  /** `verify_snapshot`; `found` is the tree in the order it is walked. */
  method VerifySnapshot(sha: Hash, manifest: Manifest, tree: Tree, found: seq<Path>, links: Artifacts)
    returns (r: Option<VerifyError>)
    requires forall p :: p in found <==> p in tree
    ensures r == None <==> Accepts(sha, manifest, tree, links)
    ensures r.Some? ==> Explains(sha, manifest, tree, links, r.value)
  {
    hide PathOk, Lines, Matches, Distinct;
    var fed, seen, bad := CheckRecords(sha, manifest.files, tree);
    if bad.Some? {
      return bad;
    }
    for i := 0 to |found|
      invariant forall k :: 0 <= k < i ==> found[k] in seen || KnownArtifact(links, found[k], tree[found[k]])
    {
      var p := found[i];
      if p !in seen {
        if !KnownArtifact(links, p, tree[p]) {
          assert p in tree && !IsListed(manifest.files, p) && !KnownArtifact(links, p, tree[p]);
          return Some(Unlisted);
        }
      }
    }
    if sha(fed) != manifest.fingerprint {
      return Some(FingerprintMismatch);
    }
    return None;
  }

  /** The loop over the records. */
  method CheckRecords(sha: Hash, records: seq<Record>, tree: Tree)
    returns (fed: seq<byte>, seen: set<Path>, bad: Option<VerifyError>)
    ensures bad.Some? ==> exists i :: RecordFails(sha, records, tree, i, bad.value)
    ensures bad == None
            <==> Distinct(records)
                 && forall i :: 0 <= i < |records| ==> PathOk(records[i].path) && Matches(sha, tree, records[i])
    ensures bad == None ==> fed == Lines(records) && forall p :: p in seen <==> IsListed(records, p)
  {
    hide Place, PathOk, Agrees, Distinct, Lines, IsListed;
    NothingListed(records);
    fed, seen := [], {};
    for i := 0 to |records|
      invariant forall k :: 0 <= k < i ==> PathOk(records[k].path) && Matches(sha, tree, records[k])
      invariant Distinct(records[..i]) && fed == Lines(records[..i])
      invariant forall p :: p in seen <==> IsListed(records[..i], p)
    {
      var r := records[i];
      OneMoreRecord(records, i);
      if !PathOk(r.path) || r.path in seen {
        assert RecordFails(sha, records, tree, i, InvalidPath);
        return fed, seen, Some(InvalidPath);
      }
      seen := seen + {r.path};
      var item := Place(r.path);
      if item !in tree || Payload(tree[item]).None? {
        assert RecordFails(sha, records, tree, i, MissingFile);
        return fed, seen, Some(MissingFile);
      }
      var payload := Payload(tree[item]).value;
      var digest := sha(payload);
      Agreement(sha, r, tree[item]);
      if |payload| != r.size || digest != r.digest {
        assert RecordFails(sha, records, tree, i, Mismatch);
        return fed, seen, Some(Mismatch);
      }
      fed := fed + (r.path + [0] + digest);
    }
    assert records[..|records|] == records;
    bad := None;
  }

  lemma NothingListed(records: seq<Record>)
    ensures Distinct(records[..0]) && Lines(records[..0]) == [] && forall p :: !IsListed(records[..0], p)
  {
  }

  lemma OneMoreRecord(records: seq<Record>, i: nat)
    requires i < |records|
    ensures Distinct(records[..i + 1]) <==> Distinct(records[..i]) && !IsListed(records[..i], records[i].path)
    ensures Lines(records[..i + 1]) == Lines(records[..i]) + (records[i].path + [0] + records[i].digest)
    ensures Distinct(records) ==> Distinct(records[..i + 1])
    ensures forall p :: IsListed(records[..i + 1], p) <==> IsListed(records[..i], p) || p == records[i].path
  {
    var less, more := records[..i], records[..i + 1];
    assert more[..i] == less && more[i] == records[i];
    assert forall k :: 0 <= k < i ==> more[k] == less[k];
    assert IsListed(more, records[i].path);
    forall p | IsListed(less, p)
      ensures IsListed(more, p)
    {
      var k :| 0 <= k < i && less[k].path == p;
      assert more[k].path == p;
    }
  }

  // ------------------------------------------------------------ what acceptance means

  /** `manifest` is what `build_snapshot` made of the listed items of `root`. */
  ghost predicate BuiltFrom(sha: Hash, root: Tree, paths: seq<Path>, manifest: Manifest) {
    && (forall p :: p in paths ==> p in root && !root[p].Special? && PathOk(p) && Place(p) == p)
    && (forall i, j :: 0 <= i < j < |paths| ==> paths[i] != paths[j])
    && |manifest.files| == |paths| && manifest.fingerprint == sha(Lines(manifest.files))
    && forall i :: 0 <= i < |paths| ==> manifest.files[i] == Recorded(sha, root, paths[i])
  }

  function Recorded(sha: Hash, root: Tree, p: Path): Record {
    if HasPayload(root, p) then RecordOf(sha, root, p) else Record(p, [], 0)
  }

  lemma BuiltListed(sha: Hash, root: Tree, paths: seq<Path>, manifest: Manifest, p: Path)
    requires BuiltFrom(sha, root, paths, manifest)
    ensures IsListed(manifest.files, p) <==> p in paths
  {
    assert forall i :: 0 <= i < |paths| ==> manifest.files[i].path == paths[i];
    if p in paths {
      var i :| 0 <= i < |paths| && paths[i] == p;
      assert manifest.files[i].path == p;
    }
  }

  /** Against a built manifest a tree is accepted exactly when every listed path
      has its recorded size and digest, and everything else is a known artifact
      link. */
  lemma AcceptedExactly(sha: Hash, root: Tree, paths: seq<Path>, manifest: Manifest, tree: Tree, links: Artifacts)
    requires BuiltFrom(sha, root, paths, manifest)
    ensures Accepts(sha, manifest, tree, links) <==>
              && (forall p :: p in paths ==> HasPayload(tree, p) && RecordOf(sha, tree, p) == RecordOf(sha, root, p))
              && (forall p :: p in tree && p !in paths ==> KnownArtifact(links, p, tree[p]))
  {
    hide Place, PathOk, KnownArtifact, Lines;
    var files := manifest.files;
    forall p | p in tree
      ensures IsListed(files, p) <==> p in paths
    {
      BuiltListed(sha, root, paths, manifest, p);
    }
    forall i | 0 <= i < |paths|
      ensures PathOk(files[i].path)
      ensures Matches(sha, tree, files[i])
              <==> HasPayload(tree, paths[i]) && RecordOf(sha, tree, paths[i]) == RecordOf(sha, root, paths[i])
    {
      assert paths[i] in paths && files[i] == RecordOf(sha, root, paths[i]);
    }
    assert forall p :: p in paths <==> exists i :: 0 <= i < |paths| && paths[i] == p;
    assert Distinct(files);
  }

  /** What was built is accepted wherever it arrives unchanged. */
  lemma BuiltIsAccepted(sha: Hash, root: Tree, paths: seq<Path>, staged: Tree, manifest: Manifest, links: Artifacts)
    requires BuiltFrom(sha, root, paths, manifest) && staged == Copy(root, paths)
    ensures Accepts(sha, manifest, staged, links)
  {
    hide Place, PathOk, KnownArtifact, Lines, Accepts;
    AcceptedExactly(sha, root, paths, manifest, staged, links);
  }

  /** The same payload, or two that collide under the hash. */
  ghost predicate Same(sha: Hash, a: Item, b: Item) {
    && Payload(a).Some? && Payload(b).Some?
    && (Payload(a) == Payload(b) || Collide(sha, Payload(a).value, Payload(b).value))
  }

  /** Whatever is accepted against a built manifest has exactly the payloads
      that were staged, nothing missing, changed or added but artifact links,
      unless the hash has a collision between payloads of one length. */
  lemma AcceptedIsBuilt(sha: Hash, root: Tree, paths: seq<Path>, manifest: Manifest, tree: Tree,
                        links: Artifacts, p: Path)
    requires BuiltFrom(sha, root, paths, manifest) && Accepts(sha, manifest, tree, links)
    ensures p in paths ==>
              && p in tree && Same(sha, tree[p], root[p])
              && |Payload(tree[p]).value| == |Payload(root[p]).value|
    ensures p in tree && p !in paths ==> KnownArtifact(links, p, tree[p])
  {
    hide Place, PathOk, KnownArtifact, Lines, Accepts;
    AcceptedExactly(sha, root, paths, manifest, tree, links);
  }

  function LinesFromFront(records: seq<Record>): seq<byte> {
    if records == [] then [] else Line(records[0]) + LinesFromFront(records[1..])
  }

  lemma {:induction false} LinesAreFromFront(records: seq<Record>)
    ensures Lines(records) == LinesFromFront(records)
  {
    hide Line;
    if records != [] {
      var front, last := records[..|records| - 1], records[|records| - 1];
      LinesAreFromFront(front);
      LinesSnoc(front, last);
      assert front + [last] == records;
    }
  }

  lemma {:induction false} LinesSnoc(records: seq<Record>, r: Record)
    ensures LinesFromFront(records + [r]) == LinesFromFront(records) + Line(r)
  {
    hide Line;
    if records == [] {
      assert [] + [r] == [r] && [r][1..] == [];
      assert Line(r) + [] == Line(r);
    } else {
      assert (records + [r])[1..] == records[1..] + [r];
      LinesSnoc(records[1..], r);
    }
  }

  predicate LineOk(r: Record) {
    NulFree(r.path) && |r.digest| == 32
  }

  lemma LineSplits(r: Record, q: Record, x: seq<byte>, y: seq<byte>)
    requires LineOk(r) && LineOk(q) && Line(r) + x == Line(q) + y
    ensures r.path == q.path && r.digest == q.digest && x == y
  {
    assert Line(r) + x == r.path + [0] + (r.digest + x);
    assert Line(q) + y == q.path + [0] + (q.digest + y);
    NulSplits(r.path, q.path, r.digest + x, q.digest + y);
    CutAt(r.digest, q.digest, x, y);
  }

  lemma {:induction false} LinesInjective(a: seq<Record>, b: seq<Record>)
    requires (forall i :: 0 <= i < |a| ==> LineOk(a[i])) && (forall i :: 0 <= i < |b| ==> LineOk(b[i]))
    requires LinesFromFront(a) == LinesFromFront(b)
    ensures |a| == |b| && forall i :: 0 <= i < |a| ==> a[i].path == b[i].path && a[i].digest == b[i].digest
  {
    LinesNotEmpty(a);
    LinesNotEmpty(b);
    hide Line, LineOk;
    if a != [] && b != [] {
      LineSplits(a[0], b[0], LinesFromFront(a[1..]), LinesFromFront(b[1..]));
      LinesInjective(a[1..], b[1..]);
      assert forall i :: 0 < i < |a| ==> a[i] == a[1..][i - 1] && b[i] == b[1..][i - 1];
    }
  }

  lemma LinesNotEmpty(records: seq<Record>)
    ensures LinesFromFront(records) == [] <==> records == []
  {
  }

  /** The fingerprint alone pins the tree: two accepted trees with the same
      fingerprint list the same paths with the same payloads, unless the hash
      has a collision. */
  lemma FingerprintPinsTree(sha: Hash, m: Manifest, s: Tree, n: Manifest, t: Tree, links: Artifacts)
    requires Accepts(sha, m, s, links) && Accepts(sha, n, t, links) && forall x :: |sha(x)| == 32
    requires forall i :: 0 <= i < |m.files| ==> NulFree(m.files[i].path)
    requires forall i :: 0 <= i < |n.files| ==> NulFree(n.files[i].path)
    requires m.fingerprint == n.fingerprint && !Collide(sha, Lines(m.files), Lines(n.files))
    ensures |m.files| == |n.files|
    ensures forall i :: 0 <= i < |m.files| ==>
              var p := Place(m.files[i].path);
              n.files[i].path == m.files[i].path && p in s && p in t && Same(sha, s[p], t[p])
  {
    hide Lines, Place, PathOk, KnownArtifact, Distinct;
    LinesAreFromFront(m.files);
    LinesAreFromFront(n.files);
    assert forall i :: 0 <= i < |m.files| ==> Matches(sha, s, m.files[i]);
    assert forall i :: 0 <= i < |n.files| ==> Matches(sha, t, n.files[i]);
    LinesInjective(m.files, n.files);
    forall i | 0 <= i < |m.files|
      ensures n.files[i].path == m.files[i].path
      ensures var p := Place(m.files[i].path); p in s && p in t && Same(sha, s[p], t[p])
    {
      assert Matches(sha, s, m.files[i]) && Matches(sha, t, n.files[i]);
    }
  }

  /** The exact effect of putting another item in one place of an accepted
      tree: it stays accepted if and only if the new item has the size and
      digest of the old one, where a record leads to that place, and is a known
      artifact link, where no record spells it as the tree does. */
  lemma ReplacedItem(sha: Hash, manifest: Manifest, tree: Tree, links: Artifacts, p: Path, item: Item)
    requires Accepts(sha, manifest, tree, links)
    ensures Accepts(sha, manifest, tree[p := item], links) <==>
              && (IsReached(manifest.files, p) ==>
                    Payload(item).Some? && Payload(tree[p]).Some?
                    && |Payload(item).value| == |Payload(tree[p]).value|
                    && sha(Payload(item).value) == sha(Payload(tree[p]).value))
              && (IsListed(manifest.files, p) || KnownArtifact(links, p, item))
  {
    hide Place, PathOk, KnownArtifact, Lines, Distinct;
    var other, files := tree[p := item], manifest.files;
    forall i | 0 <= i < |files|
      ensures Matches(sha, tree, files[i])
      ensures Place(files[i].path) != p ==> Matches(sha, other, files[i])
      ensures Place(files[i].path) == p ==> Agrees(sha, files[i], tree[p])
      ensures Place(files[i].path) == p ==> (Matches(sha, other, files[i]) <==> Agrees(sha, files[i], item))
    {
    }
  }

  /** Only payloads are checked, not the kind of item: a listed file or link may
      arrive as any item with the same size and digest. */
  lemma ListedItemReplaced(sha: Hash, manifest: Manifest, tree: Tree, links: Artifacts, p: Path, item: Item)
    requires Accepts(sha, manifest, tree, links) && IsListed(manifest.files, p) && Place(p) == p
    ensures p in tree && Payload(tree[p]).Some?
    ensures Accepts(sha, manifest, tree[p := item], links)
            <==> Payload(item).Some? && |Payload(item).value| == |Payload(tree[p]).value|
                 && sha(Payload(item).value) == sha(Payload(tree[p]).value)
  {
    hide Place, PathOk, Lines;
    var i :| 0 <= i < |manifest.files| && manifest.files[i].path == p;
    assert Matches(sha, tree, manifest.files[i]);
    ReplacedItem(sha, manifest, tree, links, p, item);
  }

  /** So a listed link may arrive as a regular file holding its target ... */
  lemma LinkKindUnchecked(sha: Hash, manifest: Manifest, tree: Tree, links: Artifacts, p: Path)
    requires Accepts(sha, manifest, tree, links) && IsListed(manifest.files, p) && Place(p) == p
    requires p in tree && tree[p].Link?
    ensures Accepts(sha, manifest, tree[p := Regular(tree[p].target)], links)
  {
    hide Accepts, Place, IsListed;
    ListedItemReplaced(sha, manifest, tree, links, p, Regular(tree[p].target));
  }

  /** ... and a listed file as a link to what it held. */
  lemma FileKindUnchecked(sha: Hash, manifest: Manifest, tree: Tree, links: Artifacts, p: Path)
    requires Accepts(sha, manifest, tree, links) && IsListed(manifest.files, p) && Place(p) == p
    requires p in tree && tree[p].Regular?
    ensures Accepts(sha, manifest, tree[p := Link(tree[p].data)], links)
  {
    hide Accepts, Place, IsListed;
    ListedItemReplaced(sha, manifest, tree, links, p, Link(tree[p].data));
  }

  /** A link called `target`, or `shell/target`, to its own build directories. */
  predicate BuildLink(home: seq<byte>, p: Path, item: Item) {
    && item.Link?
    && (|| (p == Ascii("target") && item.target == home + Ascii("/rmac/target"))
        || (p == Ascii("shell/target") && item.target == home + Ascii("/rmac/shell/target"))
        || (p == Ascii("shell/target") && item.target == home + Ascii("/rmac-wt/shell/target")))
  }

  lemma KnownLinks(home: seq<byte>, p: Path, item: Item)
    ensures KnownArtifact(ArtifactLinks(home), p, item) <==> BuildLink(home, p, item)
  {
    assert |Ascii("target")| != |Ascii("shell/target")|;
    hide Ascii;
  }

  /** An item that no record leads to is let through exactly if it is one of the
      native checker's build links. */
  lemma UnlistedItem(sha: Hash, manifest: Manifest, tree: Tree, home: seq<byte>, p: Path, item: Item)
    requires Accepts(sha, manifest, tree, ArtifactLinks(home))
    requires !IsListed(manifest.files, p) && !IsReached(manifest.files, p)
    ensures Accepts(sha, manifest, tree[p := item], ArtifactLinks(home)) <==> BuildLink(home, p, item)
  {
    hide Accepts, IsListed, IsReached, ArtifactLinks, KnownArtifact, BuildLink;
    ReplacedItem(sha, manifest, tree, ArtifactLinks(home), p, item);
    KnownLinks(home, p, item);
  }

  /** A dot and a slash in front lead to the same place. */
  lemma OtherSpelling(p: Path)
    ensures Place([DOT, SLASH] + p) == Place(p)
    ensures PathOk(p) ==> PathOk([DOT, SLASH] + p)
  {
    var q := [DOT, SLASH] + p;
    assert q[1..][1..] == p && q[1..][0] == SLASH;
    assert Split(q[1..]) == [[]] + Split(p);
    assert [DOT] + [] == [DOT] && q[0] == DOT;
    assert Split(q) == [[DOT]] + ([[]] + Split(p))[1..];
    assert ([[]] + Split(p))[1..] == Split(p);
    assert Split(q)[1..] == Split(p);
  }

  /** A further record of an item under an unused spelling is accepted. */
  lemma SecondSpelling(sha: Hash, manifest: Manifest, tree: Tree, links: Artifacts, r: Record)
    requires Accepts(sha, manifest, tree, links)
    requires PathOk(r.path) && !IsListed(manifest.files, r.path) && Matches(sha, tree, r)
    ensures var files := manifest.files + [r]; Accepts(sha, Manifest(sha(Lines(files)), files), tree, links)
  {
    hide Place, PathOk, KnownArtifact, Lines, Matches;
    var files := manifest.files + [r];
    assert forall i :: 0 <= i < |manifest.files| ==> files[i] == manifest.files[i];
    forall p | IsListed(manifest.files, p)
      ensures IsListed(files, p)
    {
      var i :| 0 <= i < |manifest.files| && manifest.files[i].path == p;
      assert files[i].path == p;
    }
  }
}
