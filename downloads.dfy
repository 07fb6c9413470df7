/** What baixar_arquivo does, identically in both vendor scripts: pick the
    file name, dispatch on its extension, and either fetch an image once or
    stream the file with up to three attempts.  The network is an oracle:
    `fetch(n)` is the outcome of the attempt with index n (0, 1, 2). */
module Downloads {
  import opened Text

  /** One fetch attempt: an exception (network error, HTTP status, write
      error), or a completed write of that many bytes. */
  datatype Attempt = Failed | Wrote(bytes: nat)

  datatype Branch = ImageFetch | StreamFetch

  /** path: where the file goes; attempts: fetches made; pauses: one-second
      sleeps taken; saved: the call reported success. */
  datatype Report = Report(branch: Branch, path: string, attempts: nat, pauses: nat, saved: bool)

  const MaxAttempts: nat := 3

  const ImageExtensions: seq<string> := [".jpg", ".jpeg", ".png"]

  /** os.path.join(folder, name) on POSIX. */
  function JoinPath(folder: string, name: string): string {
    if StartsWith(name, "/") || folder == [] then name
    else if EndsWith(folder, "/") then folder + name
    else folder + "/" + name
  }

  /** os.path.basename */
  function BaseName(path: string): string {
    LastPiece(path, '/')
  }

  /** Index of the last c in s. */
  function LastIndexOf(s: string, c: char): (r: Option<nat>)
    ensures r.Some? ==> r.value < |s| && s[r.value] == c
    ensures r.Some? ==> forall q :: r.value < q < |s| ==> s[q] != c
    ensures r.None? ==> c !in s
  {
    if s == [] then None
    else if s[|s| - 1] == c then Some(|s| - 1)
    else LastIndexOf(s[..|s| - 1], c)
  }

  predicate AllDots(s: string) {
    forall q :: 0 <= q < |s| ==> s[q] == '.'
  }

  /** os.path.splitext(path)[1]: from the last dot of the last path
      component, unless everything before that dot in the component is dots. */
  function Extension(path: string): (ext: string)
    ensures ext == [] || (ext[0] == '.' && '/' !in ext && EndsWith(path, ext))
  {
    var base := BaseName(path);
    match LastIndexOf(base, '.')
    case None => []
    case Some(d) =>
      if AllDots(base[..d]) then []
      else
        assert base == base[..d] + base[d..];
        LastPieceSuffix(path, '/');
        base[d..]
  }

  predicate IsImageName(name: string) {
    Lower(Extension(name)) in ImageExtensions
  }

  /** DOWNLOAD_TYPES */
  predicate IsDownloadType(txt: string) {
    txt == "faces do produto" || txt == "bloco de sketchup" || txt == "paginação" || txt == "ambiente"
  }

  /** The extension of the download URL's path, or ".rar" when it has none. */
  function UrlExtension(fullPath: string): (ext: string)
    ensures ext != [] && ext[0] == '.'
  {
    var e := Extension(fullPath);
    if e != [] then e else ".rar"
  }

  /** The file name baixar_arquivo uses: the one given, or the base name of
      the URL path when none (or "") is given. */
  function FileNameFor(urlPath: string, given: string): string {
    if given == [] then BaseName(urlPath) else given
  }

  /** Index of the first attempt below MaxAttempts that wrote a non-empty
      file, or MaxAttempts. */
  function FirstGoodWrite(fetch: nat -> Attempt, from: nat): (k: nat)
    requires from <= MaxAttempts
    ensures from <= k <= MaxAttempts
    ensures k < MaxAttempts ==> IsGoodWrite(fetch(k))
    ensures forall j :: from <= j < k ==> !IsGoodWrite(fetch(j))
    decreases MaxAttempts - from
  {
    if from == MaxAttempts then from
    else if IsGoodWrite(fetch(from)) then from
    else FirstGoodWrite(fetch, from + 1)
  }

  predicate IsGoodWrite(a: Attempt) {
    a.Wrote? && a.bytes > 0
  }

  predicate NoGoodWriteBefore(fetch: nat -> Attempt, n: nat) {
    forall j :: 0 <= j < n ==> !IsGoodWrite(fetch(j))
  }

  /** The first good write is at k when none comes before it. */
  lemma FirstGoodWriteAt(fetch: nat -> Attempt, k: nat)
    requires k <= MaxAttempts && NoGoodWriteBefore(fetch, k)
    requires k < MaxAttempts ==> IsGoodWrite(fetch(k))
    ensures FirstGoodWrite(fetch, 0) == k
  {
  }

  /** Number of attempts below n that raised. */
  function FailuresBefore(fetch: nat -> Attempt, n: nat): (c: nat)
    ensures c <= n
  {
    if n == 0 then 0 else FailuresBefore(fetch, n - 1) + (if fetch(n - 1).Failed? then 1 else 0)
  }

  /** The reference outcome of one call. */
  function Expected(urlPath: string, folder: string, given: string, fetch: nat -> Attempt): Report {
    var name := FileNameFor(urlPath, given);
    var path := JoinPath(folder, name);
    if IsImageName(name) then
      Report(ImageFetch, path, 1, 0, fetch(0).Wrote?)
    else
      var k := FirstGoodWrite(fetch, 0);
      var attempts := if k < MaxAttempts then k + 1 else MaxAttempts;
      Report(StreamFetch, path, attempts, FailuresBefore(fetch, attempts), k < MaxAttempts)
  }

  lemma ExpectedImage(urlPath: string, folder: string, given: string, fetch: nat -> Attempt)
    requires IsImageName(FileNameFor(urlPath, given))
    ensures Expected(urlPath, folder, given, fetch) ==
      Report(ImageFetch, JoinPath(folder, FileNameFor(urlPath, given)), 1, 0, fetch(0).Wrote?)
  {
  }

  /** The streamed outcome when the first good write is at k (MaxAttempts:
      none). */
  lemma ExpectedStream(urlPath: string, folder: string, given: string, fetch: nat -> Attempt, k: nat)
    requires !IsImageName(FileNameFor(urlPath, given))
    requires k <= MaxAttempts && NoGoodWriteBefore(fetch, k)
    requires k < MaxAttempts ==> IsGoodWrite(fetch(k))
    ensures var attempts := if k < MaxAttempts then k + 1 else MaxAttempts;
      Expected(urlPath, folder, given, fetch) ==
      Report(StreamFetch, JoinPath(folder, FileNameFor(urlPath, given)), attempts,
             FailuresBefore(fetch, attempts), k < MaxAttempts)
  {
    FirstGoodWriteAt(fetch, k);
  }

  /** Images take one attempt, never retried and never paused; anything
      else takes between one and three attempts. */
  lemma AttemptBounds(urlPath: string, folder: string, given: string, fetch: nat -> Attempt)
    ensures var r := Expected(urlPath, folder, given, fetch);
      && (r.branch == ImageFetch <==> IsImageName(FileNameFor(urlPath, given)))
      && (r.branch == ImageFetch ==> r.attempts == 1 && r.pauses == 0)
      && 1 <= r.attempts <= MaxAttempts
      && r.pauses <= r.attempts
  {
  }

  /** A streamed download succeeds exactly when one of the first three
      attempts wrote a non-empty file, and then it stops right there. */
  lemma {:induction false} StreamSucceedsIffGoodWrite(urlPath: string, folder: string, given: string, fetch: nat -> Attempt)
    requires !IsImageName(FileNameFor(urlPath, given))
    ensures var r := Expected(urlPath, folder, given, fetch);
      && (r.saved <==> exists j :: 0 <= j < MaxAttempts && fetch(j).Wrote? && fetch(j).bytes > 0)
      && (r.saved ==> fetch(r.attempts - 1).Wrote? && fetch(r.attempts - 1).bytes > 0)
      && (!r.saved ==> r.attempts == MaxAttempts)
  {
    var k := FirstGoodWrite(fetch, 0);
    ExpectedStream(urlPath, folder, given, fetch, k);
    if k < MaxAttempts {
      assert fetch(k).Wrote? && fetch(k).bytes > 0;
    } else {
      forall j | 0 <= j < MaxAttempts ensures !(fetch(j).Wrote? && fetch(j).bytes > 0) {
        assert !IsGoodWrite(fetch(j));
      }
    }
  }

  /** The pause follows an exception, not an empty write: three empty
      writes give three attempts, no pause and no success. */
  lemma EmptyWritesDoNotPause(urlPath: string, folder: string, given: string, fetch: nat -> Attempt)
    requires !IsImageName(FileNameFor(urlPath, given))
    requires forall j :: 0 <= j < MaxAttempts ==> fetch(j) == Wrote(0)
    ensures Expected(urlPath, folder, given, fetch) ==
      Report(StreamFetch, JoinPath(folder, FileNameFor(urlPath, given)), 3, 0, false)
  {
    assert FirstGoodWrite(fetch, 0) == 3;
    assert FailuresBefore(fetch, 3) == 0 by {
      assert FailuresBefore(fetch, 1) == 0;
      assert FailuresBefore(fetch, 2) == 0;
    }
  }

  /** Three exceptions give three attempts and three pauses. */
  lemma PersistentFailure(urlPath: string, folder: string, given: string, fetch: nat -> Attempt)
    requires !IsImageName(FileNameFor(urlPath, given))
    requires forall j :: 0 <= j < MaxAttempts ==> fetch(j) == Failed
    ensures Expected(urlPath, folder, given, fetch) ==
      Report(StreamFetch, JoinPath(folder, FileNameFor(urlPath, given)), 3, 3, false)
  {
    assert FirstGoodWrite(fetch, 0) == 3;
    assert FailuresBefore(fetch, 3) == 3 by {
      assert FailuresBefore(fetch, 1) == 1;
      assert FailuresBefore(fetch, 2) == 2;
    }
  }

  /** The image branch reports success whatever the size written: it has no
      empty-file check. */
  lemma ImageEmptyWriteCountsAsSaved(urlPath: string, folder: string, given: string, fetch: nat -> Attempt)
    requires IsImageName(FileNameFor(urlPath, given))
    requires fetch(0) == Wrote(0)
    ensures Expected(urlPath, folder, given, fetch).saved
  {
  }

  lemma PdfNameIsNotImage(name: string)
    requires EndsWith(Lower(name), ".pdf")
    ensures !IsImageName(name)
  {
    var ext := Extension(name);
    if ext != [] {
      ExtensionLastChar(name);
      LastCharF(Lower(name));
    }
    NotImageExtension(Lower(ext));
  }

  lemma ExtensionLastChar(name: string)
    requires Extension(name) != []
    ensures Extension(name)[|Extension(name)| - 1] == name[|name| - 1]
  {
    var ext := Extension(name);
    assert name[|name| - |ext|..][|ext| - 1] == name[|name| - 1];
  }

  lemma LastCharF(ln: string)
    requires EndsWith(ln, ".pdf")
    ensures ln[|ln| - 1] == 'f'
  {
    assert ln[|ln| - 4..][3] == ln[|ln| - 1];
  }

  lemma NotImageExtension(le: string)
    requires le == [] || le[|le| - 1] != 'g'
    ensures le !in ImageExtensions
  {
  }

  /** The last c in s + [c] + t, when t holds no c, is the one added. */
  lemma {:induction false} LastIndexOfAppend(s: string, c: char, t: string)
    requires c !in t
    ensures LastIndexOf(s + [c] + t, c) == Some(|s|)
    decreases |t|
  {
    if t == [] {
      assert s + [c] + t == s + [c];
    } else {
      var t' := t[..|t| - 1];
      assert (s + [c] + t)[..|s + [c] + t| - 1] == s + [c] + t';
      assert (s + [c] + t)[|s + [c] + t| - 1] == t[|t| - 1] != c;
      LastIndexOfAppend(s, c, t');
    }
  }

  /** The extension is the base name's tail from its last dot, when
      something other than dots precedes that dot. */
  lemma ExtensionAt(path: string, d: nat)
    requires LastIndexOf(BaseName(path), '.') == Some(d)
    requires !AllDots(BaseName(path)[..d])
    ensures Extension(path) == BaseName(path)[d..]
  {
  }

  /** A stem ending in an ordinary character, followed by a dot and a word
      without dots or slashes, has that dotted word as its extension. */
  lemma ExtensionOfSuffixed(stem: string, ext: string)
    requires stem != [] && stem[|stem| - 1] != '.' && stem[|stem| - 1] != '/'
    requires ext != [] && ext[0] == '.' && '.' !in ext[1..] && '/' !in ext
    ensures Extension(stem + ext) == ext
  {
    var name := stem + ext;
    var lp := LastPiece(stem, '/');
    LastPieceAppend(stem, ext, '/');
    LastPieceStep(stem, '/');
    var d := |lp|;
    assert d > 0 && lp[d - 1] != '.';
    var base := lp + ext;
    assert BaseName(name) == base;
    assert base == lp + ['.'] + ext[1..];
    LastIndexOfAppend(lp, '.', ext[1..]);
    assert base[..d] == lp && base[d..] == ext;
    ExtensionAt(name, d);
  }

  lemma JpgNameIsImage(stem: string)
    requires stem != [] && stem[|stem| - 1] != '.' && stem[|stem| - 1] != '/'
    ensures IsImageName(stem + ".jpg")
  {
    var ext := ".jpg";
    assert '.' !in ext[1..] && '/' !in ext by {
      assert ext[1..] == "jpg";
    }
    ExtensionOfSuffixed(stem, ext);
    LowerJpg();
  }

  lemma LowerJpg()
    ensures Lower(".jpg") == ".jpg"
  {
    var l := Lower(".jpg");
    forall i | 0 <= i < 4 ensures l[i] == ".jpg"[i] { }
  }
}
