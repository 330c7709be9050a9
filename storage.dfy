/**
 * The Supabase storage helpers: where an uploaded file is stored, the public
 * URL handed back for it, and how a stored URL is taken apart again to delete
 * the object. The Supabase client, `secure_filename` and `uuid.uuid4()` are
 * outside the model: their results are parameters, and the calls made to the
 * client are returned as a list of `StorageCall`s.
 */
module Storage {
  import opened Wrappers
  import opened Strings

  /** The bucket used when `BUCKET_NAME` is not set in the environment. */
  const DefaultBucket: string := "portfolio-media"

  /** Every Supabase project URL contains this host suffix. */
  const SupabaseHost: string := "supabase.co"

  /** The path segment in front of the bucket in a public object URL. */
  const PublicPrefix: string := "/storage/v1/object/public/"

  /** The first segment of `PublicPrefix`, which a project base URL never contains. */
  const StorageSegment: string := "/storage/"

  /** Content type sent when the upload carries none. */
  const OctetStream: string := "application/octet-stream"

  /** The text separating the project URL from the object path in a public URL of `bucket`. */
  function Marker(bucket: string): (m: string)
    ensures StartsWith(m, PublicPrefix) && StartsWith(m, StorageSegment)
    ensures |m| == |PublicPrefix| + |bucket| + 1 && m[|m| - 1] == '/'
  {
    var m := PublicPrefix + bucket + "/";
    assert m[..|PublicPrefix|] == PublicPrefix;
    assert m[..|StorageSegment|] == PublicPrefix[..|StorageSegment|];
    m
  }

  /** The public URL of `path` in `bucket` for the project at `base`. */
  function PublicUrl(base: string, bucket: string, path: string): string
  {
    base + Marker(bucket) + path
  }

  /** `n` copies of the character `c`. */
  function Repeat(c: char, n: nat): (r: string)
    ensures |r| == n && AllIn(r, {c})
  {
    seq(n, _ => c)
  }

  // ---------------------------------------------------------------------------
  // Where an upload is stored
  // ---------------------------------------------------------------------------

  /**
   * The lower-cased text after the last '.' of a (secured) file name, or ""
   * when the name has no '.'.
   */
  function FileExtension(name: string): (ext: string)
    ensures '.' !in name ==> ext == ""
    ensures '.' in name ==> exists i :: 0 <= i < |name| && name[i] == '.' && '.' !in name[i + 1..] && ext == Lower(name[i + 1..])
    ensures '.' !in ext
    ensures forall k :: 0 <= k < |ext| ==> !IsAsciiUpper(ext[k])
  {
    match LastIndexOf(name, '.')
    case None => ""
    case Some(i) =>
      var ext := Lower(name[i + 1..]);
      assert forall k :: 0 <= k < |ext| ==> ext[k] != '.' by {
        forall k | 0 <= k < |ext|
          ensures ext[k] != '.'
        {
          assert name[i + 1..][k] in name[i + 1..];
        }
      }
      ext
  }

  /** The stored file name of an upload: `<uuid>.<extension>`. */
  function StoredName(uuid: string, name: string): string
  {
    uuid + "." + FileExtension(name)
  }

  /** The object path of an upload: `<folder>/<stored name>`. */
  function StoragePath(folder: string, uuid: string, name: string): string
  {
    folder + "/" + StoredName(uuid, name)
  }

  /** Lower-casing leaves text without upper-case letters unchanged. */
  lemma LowerFixes(s: string)
    requires forall k :: 0 <= k < |s| ==> !IsAsciiUpper(s[k])
    ensures Lower(s) == s
  {
  }

  /** The stored object keeps the extension of the uploaded file. */
  lemma StoredNameKeepsExtension(uuid: string, name: string)
    ensures FileExtension(StoredName(uuid, name)) == FileExtension(name)
  {
    var ext := FileExtension(name);
    var s := uuid + "." + ext;
    assert s[|uuid| + 1..] == ext;
    LastIndexOfAt(s, '.', |uuid|);
    LowerFixes(ext);
  }

  /** In `u + "." + e` with a dot-free `u`, the first '.' is right after `u`. */
  lemma FirstDot(u: string, e: string)
    requires '.' !in u
    ensures IndexOf(u + "." + e, ".") == Some(|u|)
  {
    var x := u + "." + e;
    assert x[|u|..|u| + 1] == ".";
    forall j: nat | j < |u|
      ensures !OccursAt(x, ".", j)
    {
      assert x[j] == u[j];
      MismatchAt(x, ".", j, 0);
    }
    IndexOfFirst(x, ".", |u|);
  }

  /** A dot-free name and what follows its dot can be read back from `u + "." + e`. */
  lemma DotNameInjective(u1: string, e1: string, u2: string, e2: string)
    requires '.' !in u1 && '.' !in u2
    ensures u1 + "." + e1 == u2 + "." + e2 ==> u1 == u2 && e1 == e2
  {
    var x := u1 + "." + e1;
    var y := u2 + "." + e2;
    FirstDot(u1, e1);
    FirstDot(u2, e2);
    assert x[..|u1|] == u1 && x[|u1| + 1..] == e1;
    assert y[..|u2|] == u2 && y[|u2| + 1..] == e2;
  }

  /** Equal strings with a common prefix agree after it. */
  lemma CommonPrefix(pre: string, x: string, y: string)
    ensures pre + x == pre + y ==> x == y
  {
    assert (pre + x)[|pre|..] == x;
    assert (pre + y)[|pre|..] == y;
  }

  /**
   * Uploads named with different identifiers never share a path: the UUID in
   * the name is what keeps two uploads of the same file apart. A UUID's text
   * form has no '.'.
   */
  lemma DistinctUuidsDistinctPaths(folder: string, u1: string, u2: string, a: string, b: string)
    requires '.' !in u1 && '.' !in u2
    ensures StoragePath(folder, u1, a) == StoragePath(folder, u2, b) <==> u1 == u2 && FileExtension(a) == FileExtension(b)
  {
    CommonPrefix(folder + "/", StoredName(u1, a), StoredName(u2, b));
    DotNameInjective(u1, FileExtension(a), u2, FileExtension(b));
  }

  // ---------------------------------------------------------------------------
  // Taking a public URL apart
  // ---------------------------------------------------------------------------

  /** The first occurrence of `m` in `c` is at `i`. */
  predicate FirstAt(c: string, m: string, i: nat)
  {
    OccursAt(c, m, i) && forall j: nat :: j < i ==> !OccursAt(c, m, j)
  }

  /** No occurrence of `m` in `c` starts at `lo` or later and before `hi`. */
  predicate NoneStartsIn(c: string, m: string, lo: nat, hi: nat)
  {
    forall j: nat | lo <= j < hi :: !OccursAt(c, m, j)
  }

  /**
   * The first occurrence of `m` in `c` is at `i`, and `path` is the text after it up
   * to the next occurrence that starts after that one ends, or up to the end of `c`
   * when there is no such occurrence.
   */
  predicate PathAt(c: string, m: string, i: nat, path: string)
  {
    FirstAt(c, m, i) && StartsWith(c[i + |m|..], path)
    && (i + |m| + |path| == |c| || OccursAt(c, m, i + |m| + |path|))
    && NoneStartsIn(c, m, i + |m|, i + |m| + |path|)
  }

  /** `path` is the text between the first occurrence of `m` in `c` and the next one. */
  predicate PathAfterMarker(c: string, m: string, path: string)
  {
    exists i: nat | i <= |c| :: PathAt(c, m, i, path)
  }

  /** The first occurrence is unique. */
  lemma FirstAtUnique(c: string, m: string, i1: nat, i2: nat)
    requires FirstAt(c, m, i1) && FirstAt(c, m, i2)
    ensures i1 == i2
  {
  }

  /** A URL names at most one path after the marker. */
  lemma PathAfterMarkerUnique(c: string, m: string, p1: string, p2: string)
    requires PathAfterMarker(c, m, p1) && PathAfterMarker(c, m, p2)
    ensures p1 == p2
  {
    var i1: nat :| i1 <= |c| && PathAt(c, m, i1, p1);
    var i2: nat :| i2 <= |c| && PathAt(c, m, i2, p2);
    FirstAtUnique(c, m, i1, i2);
    var lo := i1 + |m|;
    assert |p1| == |p2|;
    assert p1 == c[lo..][..|p1|] == p2;
  }

  /** The first piece of a split runs up to the first separator, or to the end. */
  lemma FirstPiece(s: string, m: string)
    requires |m| > 0
    ensures StartsWith(s, Split(s, m)[0])
    ensures |Split(s, m)[0]| == |s| || OccursAt(s, m, |Split(s, m)[0]|)
    ensures forall j: nat :: j < |Split(s, m)[0]| ==> !OccursAt(s, m, j)
  {
    match IndexOf(s, m)
    case None =>
      SplitNone(s, m);
    case Some(j) =>
      SplitAt(s, m, j);
  }

  /** The second piece of a split is the text after the first separator up to the next one. */
  lemma SplitSecond(c: string, m: string)
    requires |m| > 0
    ensures |Split(c, m)| >= 2 <==> Contains(c, m)
    ensures Contains(c, m) ==> PathAfterMarker(c, m, Split(c, m)[1])
  {
    match IndexOf(c, m)
    case None =>
      SplitNone(c, m);
    case Some(i) =>
      SplitAt(c, m, i);
      var rest := c[i + |m|..];
      FirstPiece(rest, m);
      var p := Split(rest, m)[0];
      assert Split(c, m)[1] == p;
      assert FirstAt(c, m, i);
      PathAfterFirst(c, m, i, rest, p);
  }

  /** A prefix of the text after the first marker that ends at the end or at the next marker is the path. */
  lemma PathAfterFirst(c: string, m: string, i: nat, rest: string, p: string)
    requires FirstAt(c, m, i) && rest == c[i + |m|..]
    requires StartsWith(rest, p)
    requires |p| == |rest| || OccursAt(rest, m, |p|)
    requires forall j: nat :: j < |p| ==> !OccursAt(rest, m, j)
    ensures PathAfterMarker(c, m, p)
  {
    var lo := i + |m|;
    OccursInSuffix(c, m, lo, |p|);
    forall j: nat | lo <= j < lo + |p|
      ensures !OccursAt(c, m, j)
    {
      OccursInSuffix(c, m, lo, j - lo);
    }
    assert PathAt(c, m, i, p);
  }

  /**
   * The object path named by a stored file URL, or `None` when the URL is
   * empty or missing, is not a Supabase URL, or (after trailing '?'s are
   * dropped) does not contain the bucket's public-object marker.
   */
  function ObjectPath(fileUrl: Option<string>, bucket: string): (r: Option<string>)
    ensures r.Some? <==>
      fileUrl.Some? && fileUrl.value != "" && Contains(fileUrl.value, SupabaseHost)
      && Contains(RStrip(fileUrl.value, {'?'}), Marker(bucket))
    ensures r.Some? ==> !Contains(r.value, Marker(bucket))
    ensures r.Some? ==> PathAfterMarker(RStrip(fileUrl.value, {'?'}), Marker(bucket), r.value)
  {
    if fileUrl.None? || fileUrl.value == "" || !Contains(fileUrl.value, SupabaseHost) then
      None
    else
      var clean := RStrip(fileUrl.value, {'?'});
      var parts := Split(clean, Marker(bucket));
      SplitSecond(clean, Marker(bucket));
      if |parts| < 2 then None else Some(parts[1])
  }

  /** No occurrence of the marker starts inside a base URL without "/storage/". */
  lemma MarkerNotInBase(base: string, bucket: string, rest: string, j: nat)
    requires !Contains(base, StorageSegment) && j < |base|
    ensures !OccursAt(base + Marker(bucket) + rest, Marker(bucket), j)
  {
    var m := Marker(bucket);
    var s := base + m + rest;
    if j + |StorageSegment| <= |base| {
      assert s == base + (m + rest);
      OccursPrefix(s, m, StorageSegment, j);
      OccursInPrefix(base, m + rest, StorageSegment, j);
      assert !OccursAt(base, StorageSegment, j);
    } else {
      var e := |base| - j;
      assert s[|base|] == '/' && s[|base| + 1] == 's';
      assert forall k :: 0 <= k < |PublicPrefix| ==> m[k] == PublicPrefix[k];
      if e <= 7 {
        MismatchAt(s, m, j, e);
      } else {
        MismatchAt(s, m, j, 9);
      }
    }
  }

  /** Trailing question marks after text that does not end in one are all stripped. */
  lemma StripQuestionMarks(u: string, q: nat)
    requires u == [] || u[|u| - 1] != '?'
    ensures RStrip(u + Repeat('?', q), {'?'}) == u
  {
    RStripSkips(u, Repeat('?', q), {'?'});
  }

  /** A public URL whose path does not end in '?' does not end in '?' either. */
  lemma PublicUrlLast(base: string, bucket: string, path: string)
    requires !EndsWith(path, "?")
    ensures var u := PublicUrl(base, bucket, path); u == [] || u[|u| - 1] != '?'
  {
    var m := Marker(bucket);
    var u := PublicUrl(base, bucket, path);
    if path == [] {
      assert u[|u| - 1] == m[|m| - 1];
    } else {
      assert u[|u| - 1] == path[|path| - 1];
      assert path[|path| - 1..] == [path[|path| - 1]];
    }
  }

  /** The first marker in a public URL is the one after the project URL. */
  lemma MarkerAfterBase(base: string, bucket: string, path: string)
    requires !Contains(base, StorageSegment)
    ensures IndexOf(PublicUrl(base, bucket, path), Marker(bucket)) == Some(|base|)
  {
    var m := Marker(bucket);
    var u := PublicUrl(base, bucket, path);
    forall j: nat | j < |base|
      ensures !OccursAt(u, m, j)
    {
      MarkerNotInBase(base, bucket, path, j);
    }
    assert u[|base|..|base| + |m|] == m;
    IndexOfFirst(u, m, |base|);
  }

  /** Splitting a public URL at the marker gives the project URL and the path. */
  lemma SplitPublicUrl(base: string, bucket: string, path: string)
    requires !Contains(base, StorageSegment) && !Contains(path, Marker(bucket))
    ensures Split(PublicUrl(base, bucket, path), Marker(bucket)) == [base, path]
  {
    var m := Marker(bucket);
    var u := PublicUrl(base, bucket, path);
    MarkerAfterBase(base, bucket, path);
    SplitAt(u, m, |base|);
    assert u[..|base|] == base;
    assert u[|base| + |m|..] == path;
    SplitNone(path, m);
  }

  /** A Supabase project URL stays one when text is appended. */
  lemma HostKept(base: string, rest: string)
    requires Contains(base, SupabaseHost)
    ensures Contains(base + rest, SupabaseHost) && base + rest != ""
  {
    ContainsExtend(base, rest, SupabaseHost);
  }

  /**
   * Deletion recovers the object path from the public URL of an upload,
   * whatever number of '?'s trails it, provided the project URL is a Supabase
   * URL without a "/storage/" segment and the path neither contains the
   * bucket's marker nor ends in '?'.
   */
  lemma ObjectPathRoundTrip(base: string, bucket: string, path: string, q: nat)
    requires Contains(base, SupabaseHost) && !Contains(base, StorageSegment)
    requires !Contains(path, Marker(bucket)) && !EndsWith(path, "?")
    ensures ObjectPath(Some(PublicUrl(base, bucket, path) + Repeat('?', q)), bucket) == Some(path)
  {
    var m := Marker(bucket);
    var u := PublicUrl(base, bucket, path);
    var tail := m + path + Repeat('?', q);
    assert u + Repeat('?', q) == base + tail;
    HostKept(base, tail);
    PublicUrlLast(base, bucket, path);
    StripQuestionMarks(u, q);
    SplitPublicUrl(base, bucket, path);
  }

  /**
   * The URL an upload hands back, trailing '?'s stripped, leads deletion to
   * the object that was uploaded.
   */
  lemma UploadedUrlDeletes(base: string, bucket: string, path: string, q: nat)
    requires Contains(base, SupabaseHost) && !Contains(base, StorageSegment)
    requires !Contains(path, Marker(bucket)) && !EndsWith(path, "?")
    ensures ObjectPath(Some(RStrip(PublicUrl(base, bucket, path) + Repeat('?', q), {'?'})), bucket) == Some(path)
  {
    var u := PublicUrl(base, bucket, path);
    PublicUrlLast(base, bucket, path);
    StripQuestionMarks(u, q);
    ObjectPathRoundTrip(base, bucket, path, 0);
    assert u + Repeat('?', 0) == u;
  }

  // ---------------------------------------------------------------------------
  // The two helpers, with the storage client's calls made explicit
  // ---------------------------------------------------------------------------

  /** An uploaded file: its client-side name and its content type ("" when none). */
  datatype FileUpload = FileUpload(filename: string, contentType: string)

  /** A request made to the storage client. */
  datatype StorageCall =
    | Upload(bucket: string, path: string, contentType: string)
    | GetPublicUrl(bucket: string, path: string)
    | Remove(bucket: string, paths: seq<string>)

  /** The content type sent with an upload. */
  function ContentTypeOf(f: FileUpload): (ct: string)
    ensures ct != ""
    ensures f.contentType != "" ==> ct == f.contentType
    ensures f.contentType == "" ==> ct == OctetStream
  {
    if f.contentType == "" then OctetStream else f.contentType
  }

  /**
   * Uploads `file` into `folder` of `bucket` and returns its public URL.
   * `secure` stands for `secure_filename`, `uuid` for the fresh UUID's text,
   * `uploadFails` for an upload that reports an error or raises, and
   * `publicUrl` for what the client's `get_public_url` returns (`None` when it
   * raises). Nothing is requested when no file or no file name is given.
   */
  method UploadFile(file: Option<FileUpload>, folder: string, bucket: string, secure: string -> string,
                    uuid: string, uploadFails: bool, publicUrl: Option<string>)
    returns (url: Option<string>, calls: seq<StorageCall>)
    ensures file.None? || file.value.filename == "" ==> url == None && calls == []
    ensures file.Some? && file.value.filename != "" ==>
      var path := StoragePath(folder, uuid, secure(file.value.filename));
      calls == [Upload(bucket, path, ContentTypeOf(file.value))] + (if uploadFails then [] else [GetPublicUrl(bucket, path)])
    ensures url.Some? <==>
      file.Some? && file.value.filename != "" && !uploadFails && publicUrl.Some? && publicUrl.value != ""
    ensures url.Some? ==>
      StartsWith(publicUrl.value, url.value) && AllIn(publicUrl.value[|url.value|..], {'?'})
      && !EndsWith(url.value, "?")
  {
    if file.None? || file.value.filename == "" {
      return None, [];
    }
    var original := secure(file.value.filename);
    var extension := FileExtension(original);
    var uniqueFilename := uuid + "." + extension;
    var path := folder + "/" + uniqueFilename;
    calls := [Upload(bucket, path, ContentTypeOf(file.value))];
    if uploadFails {
      return None, calls;
    }
    calls := calls + [GetPublicUrl(bucket, path)];
    if publicUrl.None? || publicUrl.value == "" {
      return None, calls;
    }
    var cleaned := RStrip(publicUrl.value, {'?'});
    assert cleaned == [] || cleaned[|cleaned| - 1..] == [cleaned[|cleaned| - 1]];
    url := Some(cleaned);
  }

  /**
   * Deletes the object a stored file URL names. `removeFails` stands for a
   * removal that reports an error or raises. The client is asked to remove
   * exactly the path `ObjectPath` extracts, and nothing when it extracts none.
   */
  method DeleteFile(fileUrl: Option<string>, bucket: string, removeFails: bool)
    returns (ok: bool, calls: seq<StorageCall>)
    ensures ObjectPath(fileUrl, bucket).None? ==> !ok && calls == []
    ensures ObjectPath(fileUrl, bucket).Some? ==> calls == [Remove(bucket, [ObjectPath(fileUrl, bucket).value])]
    ensures ok <==> ObjectPath(fileUrl, bucket).Some? && !removeFails
  {
    if fileUrl.None? || fileUrl.value == "" {
      return false, [];
    }
    if !Contains(fileUrl.value, SupabaseHost) {
      return false, [];
    }
    var cleanUrl := RStrip(fileUrl.value, {'?'});
    var urlParts := Split(cleanUrl, Marker(bucket));
    if |urlParts| < 2 {
      return false, [];
    }
    var filePath := urlParts[1];
    calls := [Remove(bucket, [filePath])];
    ok := !removeFails;
  }
}
