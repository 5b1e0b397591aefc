/** Resolution of a picked URI to a file path the decoder can open. The
    content resolver, the input stream and the cache directory are oracle
    inputs; what is left is the decision tree and the chunked copy. */
module FileUtils {
  import opened Wrappers

  newtype byte = b: int | 0 <= b < 256

  const SchemeFile: string := "file"
  const SchemeContent: string := "content"
  /** Size of the copy buffer. */
  const BufferSize: nat := 4 * 1024

  /** A picked URI, reduced to what the resolver reads of it. */
  datatype Uri = Uri(scheme: Option<string>, path: Option<string>, lastSegment: Option<string>)

  /** What the platform answers for one URI.
      - `dataRow`: the DATA-column query; `None` when the cursor is null or
        empty, else the first row's value, which may itself be null.
      - `nameRow`: the second query, for the DISPLAY_NAME column, likewise.
      - `stream`: the bytes behind the URI, or `None` when opening it throws.
      - `chunk`: how many bytes the n-th `read` offers to deliver.
      - `faultAt`: a read attempted once this many bytes have been copied
        throws an I/O error; `None` when no I/O error occurs.
      - `cacheDir`: the absolute path of the private cache directory.
      - `cacheWritable`: whether the cache file can be opened for writing. */
  datatype Provider = Provider(
    dataRow: Option<Option<string>>,
    nameRow: Option<Option<string>>,
    stream: Option<seq<byte>>,
    chunk: nat -> nat,
    faultAt: Option<nat>,
    cacheDir: string,
    cacheWritable: bool)

  /** The branch of the resolver that decides the result. */
  datatype Route = NullUri | FilePath | MediaRow | CacheCopy

  /** What resolution did besides returning: content queries issued, whether
      a stream was opened, and the cache file it left behind (path and bytes). */
  datatype CacheFile = CacheFile(path: string, contents: seq<byte>)
  datatype Effects = Effects(queries: nat, streamOpened: bool, cache: Option<CacheFile>)

  const NoEffects: Effects := Effects(0, false, None)

  function RouteOf(uri: Option<Uri>, p: Provider): Route {
    if uri.None? then NullUri
    else if uri.value.scheme == Some(SchemeFile) then FilePath
    else if uri.value.scheme == Some(SchemeContent) && p.dataRow.Some? then MediaRow
    else CacheCopy
  }

  /** `new File(dir, name).getAbsolutePath()` for an absolute `dir`. */
  function CachePath(dir: string, name: string): string {
    dir + "/" + name
  }

  /** getFileName: the DISPLAY_NAME of the first row for a content URI when
      it is non-null, else the URI's last path segment (possibly null). A null
      scheme makes the scheme comparison throw. */
  function FileName(uri: Uri, p: Provider): (r: Outcome<Option<string>>)
    ensures uri.scheme.None? <==> r.Crashed?
    ensures r.Returned? && uri.scheme == Some(SchemeContent) && p.nameRow.Some? && p.nameRow.value.Some?
      ==> r.value == p.nameRow.value
    ensures r.Returned? && r.value != uri.lastSegment ==>
      uri.scheme == Some(SchemeContent) && p.nameRow.Some? && r.value == p.nameRow.value && r.value.Some?
  {
    if uri.scheme.None? then Crashed
    else
      var fromQuery := if uri.scheme.value == SchemeContent && p.nameRow.Some? then p.nameRow.value else None;
      Returned(if fromQuery.Some? then fromQuery else uri.lastSegment)
  }

  /** The copy ends without an I/O error exactly when no read, up to and
      including the final end-of-stream read, is attempted at or past `faultAt`. */
  predicate CopySucceeds(data: seq<byte>, faultAt: Option<nat>) {
    faultAt.None? || faultAt.value > |data|
  }

  /** The bytes of a sequence of chunks, in order. */
  function Flatten(chunks: seq<seq<byte>>): seq<byte> {
    if chunks == [] then [] else Flatten(chunks[..|chunks| - 1]) + chunks[|chunks| - 1]
  }

  /** `InputStream.read(buffer)`: -1 at the end of the stream, otherwise at
      least one and at most a buffer's worth of the remaining bytes. */
  function ReadCount(offered: nat, remaining: nat): (n: int)
    ensures remaining == 0 <==> n == -1
    ensures remaining > 0 ==> 1 <= n <= BufferSize && n <= remaining
  {
    if remaining == 0 then -1
    else if offered < 1 then 1
    else if offered > BufferSize || offered > remaining then (if BufferSize < remaining then BufferSize else remaining)
    else offered
  }

  /** The copy loop: read into a 4096-byte buffer and write exactly the bytes
      read, until end of stream or an I/O error. */
  method CopyStream(data: seq<byte>, chunk: nat -> nat, faultAt: Option<nat>)
    returns (written: seq<byte>, chunks: seq<seq<byte>>, ok: bool)
    ensures ok <==> CopySucceeds(data, faultAt)
    ensures ok ==> written == data
    ensures written <= data
    ensures !ok ==> faultAt.value <= |written|
    ensures Flatten(chunks) == written
    ensures forall i | 0 <= i < |chunks| :: 1 <= |chunks[i]| <= BufferSize
  {
    written, chunks := [], [];
    var consumed, readCalls := 0, 0;
    var eof, fault := false, false;
    while !eof && !fault
      invariant consumed <= |data|
      invariant written == data[..consumed]
      invariant Flatten(chunks) == written
      invariant forall i | 0 <= i < |chunks| :: 1 <= |chunks[i]| <= BufferSize
      invariant eof ==> consumed == |data| && CopySucceeds(data, faultAt)
      invariant fault ==> !eof && faultAt.Some? && faultAt.value <= consumed
      decreases |data| - consumed, if eof || fault then 0 else 1
    {
      if faultAt.Some? && faultAt.value <= consumed {
        fault := true;
      } else {
        var n := ReadCount(chunk(readCalls), |data| - consumed);
        readCalls := readCalls + 1;
        if n == -1 {
          eof := true;
        } else {
          var buffer := data[consumed..consumed + n];
          assert Flatten(chunks + [buffer]) == Flatten(chunks) + buffer by {
            assert (chunks + [buffer])[..|chunks|] == chunks;
          }
          written, chunks := written + buffer, chunks + [buffer];
          consumed := consumed + n;
        }
      }
    }
    ok := !fault;
  }

  /** copyFileToCache: open the stream, name the cache file, copy, and
      return its absolute path. A stream that cannot be opened, a cache file
      that cannot be created and an I/O error during the copy all yield null;
      a null file name makes `new File` throw. */
  method CopyFileToCache(uri: Uri, p: Provider, queriesSoFar: nat)
    returns (r: Outcome<Option<string>>, fx: Effects)
    ensures p.stream.None? ==> r == Returned(None) && fx.cache.None?
    ensures p.stream.Some? ==>
      (r.Crashed? <==> FileName(uri, p).Crashed? || FileName(uri, p).value.None?)
    ensures p.stream.Some? && FileName(uri, p).Returned? && FileName(uri, p).value.Some? ==>
      && (p.cacheWritable ==> fx.cache.Some? && fx.cache.value.path == CachePath(p.cacheDir, FileName(uri, p).value.value))
      && (if p.cacheWritable && CopySucceeds(p.stream.value, p.faultAt)
          then r == Returned(Some(CachePath(p.cacheDir, FileName(uri, p).value.value)))
          else r == Returned(None))
    ensures fx.queries == queriesSoFar + (if uri.scheme == Some(SchemeContent) && p.stream.Some? then 1 else 0)
    ensures fx.streamOpened <==> p.stream.Some?
    ensures fx.cache.Some? ==> p.stream.Some? && fx.cache.value.contents <= p.stream.value
    ensures r.Returned? && r.value.Some? ==>
      fx.cache.Some? && r.value.value == fx.cache.value.path && fx.cache.value.contents == p.stream.value
  {
    if p.stream.None? {
      return Returned(None), Effects(queriesSoFar, false, None);
    }
    var queries := queriesSoFar + (if uri.scheme == Some(SchemeContent) then 1 else 0);
    var name := FileName(uri, p);
    if name.Crashed? || name.value.None? {
      return Crashed, Effects(queries, true, None);
    }
    if !p.cacheWritable {
      return Returned(None), Effects(queries, true, None);
    }
    var path := CachePath(p.cacheDir, name.value.value);
    var written, chunks, ok := CopyStream(p.stream.value, p.chunk, p.faultAt);
    fx := Effects(queries, true, Some(CacheFile(path, written)));
    r := if ok then Returned(Some(path)) else Returned(None);
  }

  /** getPathFromUri: a null URI gives null; a file URI gives its path with
      no I/O; a content URI whose DATA query has a first row gives that row's
      value, even null, without copying; everything else is copied to the
      cache, whose file then holds a prefix of the source bytes, and all of
      them when its path is returned. */
  method GetPathFromUri(uri: Option<Uri>, p: Provider) returns (r: Outcome<Option<string>>, fx: Effects)
    ensures uri.None? ==> r == Returned(None) && fx == NoEffects
    ensures uri.Some? && uri.value.scheme == Some(SchemeFile) ==> r == Returned(uri.value.path) && fx == NoEffects
    ensures uri.Some? && uri.value.scheme == Some(SchemeContent) && p.dataRow.Some? ==>
      r == Returned(p.dataRow.value) && fx == Effects(1, false, None)
    ensures fx.streamOpened || fx.cache.Some? ==> RouteOf(uri, p) == CacheCopy
    ensures fx.cache.Some? ==> p.stream.Some? && fx.cache.value.contents <= p.stream.value
    ensures RouteOf(uri, p) == CacheCopy && r.Returned? && r.value.Some? ==>
      fx.cache.Some? && r.value.value == fx.cache.value.path && fx.cache.value.contents == p.stream.value
    ensures RouteOf(uri, p) == CacheCopy && r.Returned? && r.value.Some? ==>
      && p.stream.Some? && p.cacheWritable && CopySucceeds(p.stream.value, p.faultAt)
      && exists name :: FileName(uri.value, p) == Returned(Some(name)) && r.value.value == CachePath(p.cacheDir, name)
    ensures RouteOf(uri, p) == CacheCopy && p.stream.Some? && p.cacheWritable && CopySucceeds(p.stream.value, p.faultAt) ==>
      forall name :: FileName(uri.value, p) == Returned(Some(name)) ==> r == Returned(Some(CachePath(p.cacheDir, name)))
    ensures r.Returned? && r.value.Some? ==>
      && uri.Some?
      && (|| (uri.value.scheme == Some(SchemeFile) && uri.value.path == r.value)
          || (uri.value.scheme == Some(SchemeContent) && p.dataRow == Some(r.value))
          || (fx.cache.Some? && r.value.value == fx.cache.value.path && fx.cache.value.contents == p.stream.value))
    ensures RouteOf(uri, p) == CacheCopy ==>
      (r.Crashed? <==> p.stream.Some? && (FileName(uri.value, p).Crashed? || FileName(uri.value, p).value.None?))
  {
    if uri.None? {
      return Returned(None), NoEffects;
    }
    var u := uri.value;
    if u.scheme == Some(SchemeFile) {
      return Returned(u.path), NoEffects;
    }
    var queries := 0;
    if u.scheme == Some(SchemeContent) {
      queries := 1;
      if p.dataRow.Some? {
        return Returned(p.dataRow.value), Effects(queries, false, None);
      }
    }
    r, fx := CopyFileToCache(u, p, queries);
  }
}
