/** Manifests as bytes: the engine's version edits encoded, framed as log records, cut by a crash, read
    and decoded again, and folded through one builder. */
module ManifestCodec {
  import opened Entries
  import opened Coding
  import opened Slices
  import opened Versions
  import opened VersionBuilder
  import opened LogFormat
  import opened Recovery
  import Reopen
  import C = EditCodec

  /** User keys as bytes. */
  type KeyCode = UserKey -> Bytes

  /** An internal key: the user key, then sequence number and kind packed in eight bytes. */
  function KeyBytes(code: KeyCode, k: InternalKey): Bytes {
    code(k.user) + EncodeFixed64(k.Tag())
  }

  function Meta(code: KeyCode, f: TableFile): C.FileMeta {
    C.FileMeta(f.number, f.size, KeyBytes(code, f.Smallest()), KeyBytes(code, f.Largest()))
  }

  function ToAdded(code: KeyCode, files: seq<(nat, TableFile)>): (r: seq<(nat, C.FileMeta)>)
    ensures |r| == |files|
  {
    seq(|files|, i requires 0 <= i < |files| => (files[i].0, Meta(code, files[i].1)))
  }

  /** The edit object that is encoded. */
  ghost function ToEdit(code: KeyCode, e: VersionEdit): C.Edit {
    C.Edit(None, e.logNumber, None, e.nextFileNumber, e.lastSequence, [], ToSet(e.deletedFiles), ToAdded(code, e.newFiles))
  }

  /** The bytes of one manifest record. */
  ghost function EditBytes(code: KeyCode, e: VersionEdit): Bytes {
    C.ItemsBytes(C.Items(ToEdit(code, e)))
  }

  ghost predicate Encodable(code: KeyCode, m: seq<VersionEdit>) {
    forall i :: 0 <= i < |m| ==> C.GoodEdit(ToEdit(code, m[i]))
  }

  ghost function Payloads(code: KeyCode, m: seq<VersionEdit>): (r: seq<Bytes>)
    ensures |r| == |m|
  {
    if m == [] then [] else Payloads(code, m[..|m| - 1]) + [EditBytes(code, m[|m| - 1])]
  }

  ghost function ManifestBytes(crc: Checksum, code: KeyCode, m: seq<VersionEdit>): Bytes {
    LogBytes(crc, 0, Payloads(code, m))
  }

  // ----- Reading -----

  /** Every record is decoded into an edit of its own. */
  function DecodeAll(payloads: seq<Bytes>): (r: Option<seq<C.Edit>>)
  {
    if payloads == [] then Some([])
    else
      var last := |payloads| - 1;
      match (DecodeAll(payloads[..last]), C.DecodeItems(payloads[last], NewEdit()))
      case (Some(rest), Some(e)) => Some(rest + [e])
      case _ => None
  }

  function NewEdit(): C.Edit {
    C.Edit(None, None, None, None, None, [], {}, [])
  }

  function ReadManifest(crc: Checksum, file: Bytes): Option<seq<C.Edit>> {
    var (payloads, drops) := ReadAll(crc, file, 0);
    if drops != [] then None else DecodeAll(payloads)
  }

  ghost function ToEdits(code: KeyCode, m: seq<VersionEdit>): seq<C.Edit> {
    if m == [] then [] else ToEdits(code, m[..|m| - 1]) + [ToEdit(code, m[|m| - 1])]
  }

  lemma DecodeOneMore(payloads: seq<Bytes>, rest: seq<C.Edit>, last: Bytes, e: C.Edit)
    requires DecodeAll(payloads) == Some(rest) && C.DecodeItems(last, NewEdit()) == Some(e)
    ensures DecodeAll(payloads + [last]) == Some(rest + [e])
  {
    assert (payloads + [last])[..|payloads|] == payloads;
  }

  lemma OneEditBack(code: KeyCode, e: VersionEdit)
    requires C.GoodEdit(ToEdit(code, e))
    ensures C.DecodeItems(EditBytes(code, e), NewEdit()) == Some(ToEdit(code, e))
  {
    assert NewEdit() == C.Cleared(NewEdit());
    hide C.DecodeItems, C.ItemsBytes, C.Items, C.GoodEdit, ToAdded;
    C.EditRoundTripExact(ToEdit(code, e), NewEdit());
  }

  lemma {:induction false} DecodeAllBack(code: KeyCode, m: seq<VersionEdit>)
    requires Encodable(code, m)
    ensures DecodeAll(Payloads(code, m)) == Some(ToEdits(code, m))
  {
    if m != [] {
      var last := m[|m| - 1];
      DecodeAllBack(code, m[..|m| - 1]);
      hide C.GoodEdit, EditBytes, DecodeAll, ToEdit;
      OneEditBack(code, last);
      DecodeOneMore(Payloads(code, m[..|m| - 1]), ToEdits(code, m[..|m| - 1]), EditBytes(code, last), ToEdit(code, last));
    }
  }

  lemma {:induction false} PayloadsPrefix(code: KeyCode, m: seq<VersionEdit>, k: nat)
    requires k <= |m|
    ensures Payloads(code, m)[..k] == Payloads(code, m[..k])
  {
    if k == |m| {
      assert m[..k] == m;
    } else {
      PayloadsPrefix(code, m[..|m| - 1], k);
      assert m[..|m| - 1][..k] == m[..k];
    }
  }

  /** However the bytes of a manifest are cut, reading them gives the edits of all whole records. */
  lemma CutManifestReadBack(crc: Checksum, code: KeyCode, m: seq<VersionEdit>, n: nat)
    requires Encodable(code, m) && n <= |ManifestBytes(crc, code, m)|
    ensures ReadManifest(crc, ManifestBytes(crc, code, m)[..n])
            == Some(ToEdits(code, m[..WholeRecords(crc, 0, Payloads(code, m), n)]))
  {
    var k := WholeRecords(crc, 0, Payloads(code, m), n);
    assert Encodable(code, m[..k]);
    hide ReadAll, LogBytes, Payloads, DecodeAll, WholeRecords, Encodable;
    CutLogRoundTrip(crc, Payloads(code, m), n);
    PayloadsPrefix(code, m, k);
    DecodeAllBack(code, m[..k]);
  }

  // ----- What the bytes determine -----

  /** The two edits are written alike. */
  ghost predicate SameEdit(code: KeyCode, a: VersionEdit, b: VersionEdit) {
    ToEdit(code, a) == ToEdit(code, b)
  }

  lemma SameEditSameLevels(code: KeyCode, a: VersionEdit, b: VersionEdit, files: set<TableFile>, l: nat)
    requires SameEdit(code, a, b) && Identified(files)
    requires forall p :: p in a.newFiles || p in b.newFiles ==> p.1 in files
    ensures NewAt(a, l) == NewAt(b, l) && DeletedAt(a, l) == DeletedAt(b, l)
  {
    assert forall d :: d in a.deletedFiles <==> d in ToSet(a.deletedFiles);
    assert forall d :: d in b.deletedFiles <==> d in ToSet(b.deletedFiles);
    var x, y := ToAdded(code, a.newFiles), ToAdded(code, b.newFiles);
    forall i | 0 <= i < |a.newFiles| ensures a.newFiles[i] == b.newFiles[i] {
      assert x[i] == y[i] && a.newFiles[i] in a.newFiles && b.newFiles[i] in b.newFiles;
    }
    assert a.newFiles == b.newFiles;
  }

  ghost predicate SameEdits(code: KeyCode, m: seq<VersionEdit>, n: seq<VersionEdit>) {
    |m| == |n| && forall i :: 0 <= i < |m| ==> SameEdit(code, m[i], n[i])
  }

  lemma {:induction false} SameEditsSameLevels(code: KeyCode, m: seq<VersionEdit>, n: seq<VersionEdit>, files: set<TableFile>, l: nat)
    requires SameEdits(code, m, n) && Identified(files) && ManifestFiles(m) <= files && ManifestFiles(n) <= files
    ensures LevelEdits(m, l) == LevelEdits(n, l)
    decreases |m|
  {
    if m != [] {
      var last := |m| - 1;
      assert m == m[..last] + [m[last]] && n == n[..last] + [n[last]];
      ManifestFilesSnoc(m[..last], m[last]);
      ManifestFilesSnoc(n[..last], n[last]);
      forall p | p in m[last].newFiles || p in n[last].newFiles ensures p.1 in files {
        assert p in m[last].newFiles ==> p.1 in NewAt(m[last], p.0);
        assert p in n[last].newFiles ==> p.1 in NewAt(n[last], p.0);
      }
      SameEditSameLevels(code, m[last], n[last], files, l);
      SameEditsSameLevels(code, m[..last], n[..last], files, l);
    }
  }

  lemma {:induction false} ToEditsAt(code: KeyCode, m: seq<VersionEdit>, n: seq<VersionEdit>)
    requires ToEdits(code, m) == ToEdits(code, n)
    ensures SameEdits(code, m, n)
    decreases |m|
  {
    hide ToEdit;
    ToEditsLength(code, m);
    ToEditsLength(code, n);
    if m != [] {
      var last := |m| - 1;
      var a, b := ToEdits(code, m[..last]), ToEdits(code, n[..last]);
      var e, f := ToEdit(code, m[last]), ToEdit(code, n[last]);
      assert a + [e] == b + [f];
      ToEditsLength(code, m[..last]);
      ToEditsLength(code, n[..last]);
      assert (a + [e])[..last] == a && (b + [f])[..last] == b;
      assert (a + [e])[last] == e && (b + [f])[last] == f;
      ToEditsAt(code, m[..last], n[..last]);
      assert forall i :: 0 <= i < last ==> m[..last][i] == m[i] && n[..last][i] == n[i];
    }
  }

  lemma {:induction false} ToEditsLength(code: KeyCode, m: seq<VersionEdit>)
    ensures |ToEdits(code, m)| == |m|
  {
    hide ToEdit;
    if m != [] {
      ToEditsLength(code, m[..|m| - 1]);
    }
  }

  /** Edits read from the bytes, resolved to table files by number and folded through one builder, give
      the very version that the edits written stand for. */
  lemma ManifestRoundTrip(crc: Checksum, code: KeyCode, m: seq<VersionEdit>, read: seq<VersionEdit>, v: Version, w: Version)
    requires Encodable(code, m) && IsReplay(m, v)
    requires ReadManifest(crc, ManifestBytes(crc, code, m)) == Some(ToEdits(code, read)) && IsReplay(read, w)
    requires Identified(ManifestFiles(m) + ManifestFiles(read))
    ensures v == w
  {
    hide ReadAll, LogBytes, Payloads, DecodeAll, Encodable, ToEdits, IsReplay, ManifestFiles, Identified;
    WholeLogRoundTrip(crc, Payloads(code, m));
    DecodeAllBack(code, m);
    ToEditsAt(code, m, read);
    SameReplay(code, m, read, w);
    Reopen.ReplayIsUnique(m, v, w);
  }

  lemma SameReplay(code: KeyCode, m: seq<VersionEdit>, read: seq<VersionEdit>, w: Version)
    requires SameEdits(code, m, read) && Identified(ManifestFiles(m) + ManifestFiles(read)) && IsReplay(read, w)
    ensures IsReplay(m, w)
  {
    forall l | 0 <= l < NUM_LEVELS ensures LevelEdits(m, l) == LevelEdits(read, l) {
      SameEditsSameLevels(code, m, read, ManifestFiles(m) + ManifestFiles(read), l);
    }
    hide LevelEdits, ManifestFiles, Identified, SameEdits, DeletedBy, AddedBy, Ordered;
  }

  /** A crash while a record is added to the manifest leaves it as it was, or with the whole record. */
  lemma TornManifestWrite(crc: Checksum, code: KeyCode, m: seq<VersionEdit>, e: VersionEdit, n: nat)
    requires Encodable(code, m + [e])
    requires |ManifestBytes(crc, code, m)| <= n <= |ManifestBytes(crc, code, m + [e])|
    ensures var whole := ManifestBytes(crc, code, m + [e]);
            ReadManifest(crc, whole[..n]) == Some(ToEdits(code, if n == |whole| then m + [e] else m))
  {
    hide *;
    var all, whole := m + [e], ManifestBytes(crc, code, m + [e]);
    assert all[..|m|] == m && all[..|all|] == all;
    ManifestSnoc(crc, code, m, e);
    CutManifestReadBack(crc, code, all, n);
    if n < |whole| {
      WholeRecordsMonotone(crc, 0, Payloads(code, m), EditBytes(code, e), n);
    } else {
      AllWhole(crc, 0, Payloads(code, all));
    }
  }

  lemma ManifestSnoc(crc: Checksum, code: KeyCode, m: seq<VersionEdit>, e: VersionEdit)
    ensures Payloads(code, m + [e]) == Payloads(code, m) + [EditBytes(code, e)]
    ensures ManifestBytes(crc, code, m) == LogBytes(crc, 0, Payloads(code, m))
    ensures ManifestBytes(crc, code, m + [e]) == LogBytes(crc, 0, Payloads(code, m + [e]))
  {
    hide LogBytes, EditBytes;
    assert (m + [e])[..|m|] == m;
  }
}
