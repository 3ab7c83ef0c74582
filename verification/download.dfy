/**
  `Web2Markdown.download_image`: the choice of file extension, the
  collision-free file name, the image counter and the three-attempt retry
  loop. The network, the image library, the file system and MD5 are
  outside: each attempt's outcome is read from a script of replies, the
  existing files are a set of paths, and MD5 and URL handling are
  functions of the environment.
 */
module Download {
  import opened Options
  import opened PyStr

  // ---------------------------------------------------------------------
  // The extension.
  // ---------------------------------------------------------------------

  /** `s.rfind(c)`: the last index of `c` in `s`, or -1. */
  function RFind(s: string, c: char): (r: int)
    ensures -1 <= r < |s|
    ensures r >= 0 ==> s[r] == c
    ensures forall i :: r < i < |s| ==> s[i] != c
  {
    if s == [] then -1
    else if s[|s| - 1] == c then |s| - 1
    else RFind(s[..|s| - 1], c)
  }

  /** The extension part of `os.path.splitext(p)` (POSIX rules): from the
      last dot of the last path component, provided something other than
      a dot comes before that dot in the component; otherwise empty. */
  function SplitExt(p: string): (r: string)
    ensures r == [] || (r[0] == '.' && |r| <= |p| && r == p[|p| - |r|..])
    ensures forall i :: 0 <= i < |r| ==> r[i] != '/'
    ensures forall i :: 0 < i < |r| ==> r[i] != '.'
  {
    var sepIndex := RFind(p, '/');
    var dotIndex := RFind(p, '.');
    if dotIndex > sepIndex && exists i :: sepIndex + 1 <= i < dotIndex && p[i] != '.' then
      p[dotIndex..]
    else
      []
  }

  /** The extension the content type names, in the order `download_image` tests
      them; `webp` images are converted and saved as PNG. */
  function ContentTypeExt(contentType: string): Option<string>
  {
    if Contains(contentType, "image/jpeg") || Contains(contentType, "image/jpg") then Some(".jpg")
    else if Contains(contentType, "image/png") then Some(".png")
    else if Contains(contentType, "image/gif") then Some(".gif")
    else if Contains(contentType, "image/webp") then Some(".png")
    else None
  }

  /** The extension of the saved file: from the lower-cased content type,
      else the lower-cased extension of the URL path, else `.jpg`. */
  function ChooseExt(contentType: string, urlPath: string): (r: string)
    ensures r != [] && r[0] == '.'
    ensures ContentTypeExt(Lower(contentType)).Some? ==> r in {".jpg", ".png", ".gif"}
    ensures ContentTypeExt(Lower(contentType)).None? && SplitExt(urlPath) != [] ==> r == Lower(SplitExt(urlPath))
    ensures ContentTypeExt(Lower(contentType)).None? && SplitExt(urlPath) == [] ==> r == ".jpg"
  {
    match ContentTypeExt(Lower(contentType))
    case Some(ext) => ext
    case None =>
      var ext := Lower(SplitExt(urlPath));
      if ext == [] then ".jpg" else ext
  }

  /** The content type is matched without regard to ASCII case. */
  lemma ChooseExtCaseInsensitive(contentType: string, urlPath: string)
    ensures ChooseExt(contentType, urlPath) == ChooseExt(Lower(contentType), urlPath)
  {
    LowerIdempotent(contentType);
  }

  /** `RFind` finds the last occurrence. */
  lemma RFindLast(s: string, c: char, k: nat)
    requires k < |s| && s[k] == c
    requires forall i :: k < i < |s| ==> s[i] != c
    ensures RFind(s, c) == k
  {
  }

  /** A path `d/b.e` whose last component has a stem `b` holding
      something other than a dot, and an extension `e` without dots,
      has the extension `.e`. */
  lemma SplitExtOfName(d: string, b: string, e: string)
    requires forall i :: 0 <= i < |b| ==> b[i] != '/'
    requires exists i :: 0 <= i < |b| && b[i] != '.'
    requires forall i :: 0 <= i < |e| ==> e[i] != '/' && e[i] != '.'
    ensures SplitExt(d + "/" + b + "." + e) == "." + e
  {
    var p := d + "/" + b + "." + e;
    var dot := |d| + 1 + |b|;
    assert forall i :: |d| < i < dot ==> p[i] == b[i - |d| - 1];
    assert forall i :: dot < i < |p| ==> p[i] == e[i - dot - 1];
    RFindLast(p, '/', |d|);
    RFindLast(p, '.', dot);
    var j :| 0 <= j < |b| && b[j] != '.';
    assert p[|d| + 1 + j] != '.';
    assert p[dot..] == "." + e;
  }

  /** A last component made of dots and one extension-less word, like
      `.bashrc` or `..cache`, has no extension. */
  lemma SplitExtOfDotName(d: string, dots: string, e: string)
    requires forall i :: 0 <= i < |dots| ==> dots[i] == '.'
    requires forall i :: 0 <= i < |e| ==> e[i] != '/' && e[i] != '.'
    ensures SplitExt(d + "/" + dots + "." + e) == []
  {
    var p := d + "/" + dots + "." + e;
    var dot := |d| + 1 + |dots|;
    assert forall i :: |d| < i < dot ==> p[i] == dots[i - |d| - 1];
    assert forall i :: dot < i < |p| ==> p[i] == e[i - dot - 1];
    RFindLast(p, '/', |d|);
    RFindLast(p, '.', dot);
  }

  /** A content type naming an image format decides the extension, and
      the URL plays no part. */
  lemma ChooseExtByContentType(contentType: string, urlPath: string, urlPath': string)
    requires ContentTypeExt(Lower(contentType)).Some?
    ensures ChooseExt(contentType, urlPath) == ChooseExt(contentType, urlPath')
    ensures ChooseExt(contentType, urlPath) in {".jpg", ".png", ".gif"}
  {
  }

  /** The content-type tests in their order of precedence: JPEG, PNG,
      GIF, then WebP saved as PNG; a content type naming none of them
      leaves the choice to the URL. */
  lemma ChooseExtRules(contentType: string, urlPath: string)
    ensures var lc, r := Lower(contentType), ChooseExt(contentType, urlPath);
            var jpg := Contains(lc, "image/jpeg") || Contains(lc, "image/jpg");
            var png, gif, webp := Contains(lc, "image/png"), Contains(lc, "image/gif"), Contains(lc, "image/webp");
            && (jpg ==> r == ".jpg")
            && (!jpg && png ==> r == ".png")
            && (!jpg && !png && gif ==> r == ".gif")
            && (!jpg && !png && !gif && webp ==> r == ".png")
            && (!jpg && !png && !gif && !webp ==> r == (if SplitExt(urlPath) == [] then ".jpg" else Lower(SplitExt(urlPath))))
  {
  }

  /** A URL path without an extension, and a content type naming no
      image format, give `.jpg`. */
  lemma ChooseExtDefault(contentType: string, urlPath: string)
    requires ContentTypeExt(Lower(contentType)).None? && SplitExt(urlPath) == []
    ensures ChooseExt(contentType, urlPath) == ".jpg"
  {
  }

  // ---------------------------------------------------------------------
  // The file name.
  // ---------------------------------------------------------------------

  /** `os.path.join(dir, name)` (POSIX rules) for a `name` that is not absolute. */
  function Join(dir: string, name: string): string
  {
    if dir == [] || dir[|dir| - 1] == '/' then dir + name else dir + "/" + name
  }

  /** `h[:8]`. */
  function Take8(h: string): (r: string)
    ensures |r| <= 8 && |r| <= |h| && r == h[..|r|]
  {
    if |h| <= 8 then h else h[..8]
  }

  /** `image_{n}_{hash}`: the part of every name tried for image `n`. */
  function Stem(n: nat, hash: string): (r: string)
    ensures r != [] && r[0] == 'i'
  {
    "image_" + NatToString(n) + "_" + hash
  }

  /** Nothing for the first name tried, `_{k}` for the `k`-th retry. */
  function Suffix(k: nat): (r: string)
    ensures k == 0 <==> r == []
  {
    if k == 0 then [] else "_" + NatToString(k)
  }

  /** The `k`-th path the collision loop tries. */
  function Candidate(dir: string, stem: string, ext: string, k: nat): string
  {
    Join(dir, stem + Suffix(k) + ext)
  }

  /** Joining onto one directory tells names that do not start with `/` apart. */
  lemma JoinInjective(dir: string, a: string, b: string)
    requires Join(dir, a) == Join(dir, b)
    ensures a == b
  {
    var pre := if dir == [] || dir[|dir| - 1] == '/' then dir else dir + "/";
    assert Join(dir, a) == pre + a && Join(dir, b) == pre + b;
    assert a == (pre + a)[|pre|..];
    assert b == (pre + b)[|pre|..];
  }

  /** Distinct retries try distinct paths. */
  lemma CandidateInjective(dir: string, stem: string, ext: string, j: nat, k: nat)
    requires Candidate(dir, stem, ext, j) == Candidate(dir, stem, ext, k)
    ensures j == k
  {
    var a, b := Suffix(j), Suffix(k);
    JoinInjective(dir, stem + a + ext, stem + b + ext);
    assert |a| == |b|;
    assert a == (stem + a + ext)[|stem|..|stem| + |a|];
    assert b == (stem + b + ext)[|stem|..|stem| + |b|];
    if j != 0 && k != 0 {
      assert NatToString(j) == a[1..];
      assert NatToString(k) == b[1..];
      NatToStringInjective(j, k);
    }
  }

  /** The first `k` paths tried. */
  function Tried(dir: string, stem: string, ext: string, k: nat): (r: set<string>)
    ensures forall j :: 0 <= j < k ==> Candidate(dir, stem, ext, j) in r
    ensures forall x :: x in r ==> exists j :: 0 <= j < k && x == Candidate(dir, stem, ext, j)
  {
    if k == 0 then {} else Tried(dir, stem, ext, k - 1) + {Candidate(dir, stem, ext, k - 1)}
  }

  /** The first `k` tries are `k` different paths. */
  lemma {:induction false} TriedSize(dir: string, stem: string, ext: string, k: nat)
    ensures |Tried(dir, stem, ext, k)| == k
  {
    if k > 0 {
      TriedSize(dir, stem, ext, k - 1);
      var c := Candidate(dir, stem, ext, k - 1);
      if c in Tried(dir, stem, ext, k - 1) {
        var j :| 0 <= j < k - 1 && c == Candidate(dir, stem, ext, j);
        CandidateInjective(dir, stem, ext, j, k - 1);
        assert false;
      }
    }
  }

  /** `k` distinct paths that all exist need `k` existing paths. */
  lemma TriedFit(dir: string, stem: string, ext: string, files: set<string>, k: nat)
    requires forall j :: 0 <= j < k ==> Candidate(dir, stem, ext, j) in files
    ensures k <= |files|
  {
    var t := Tried(dir, stem, ext, k);
    TriedSize(dir, stem, ext, k);
    assert t <= files;
    assert files == t + (files - t);
  }

  /** The collision loop from its `k`-th try on: the first retry number
      whose path does not exist. Every path tried before it exists. */
  function FreeSuffix(dir: string, stem: string, ext: string, files: set<string>, k: nat): (r: nat)
    requires forall j :: 0 <= j < k ==> Candidate(dir, stem, ext, j) in files
    ensures k <= r
    ensures Candidate(dir, stem, ext, r) !in files
    ensures forall j :: 0 <= j < r ==> Candidate(dir, stem, ext, j) in files
    decreases |files| - k
  {
    if Candidate(dir, stem, ext, k) !in files then k
    else
      TriedFit(dir, stem, ext, files, k + 1);
      FreeSuffix(dir, stem, ext, files, k + 1)
  }

  // ---------------------------------------------------------------------
  // The retry loop.
  // ---------------------------------------------------------------------

  const MaxRetries: nat := 3

  /** How the save block of a 200 response ends: `os.makedirs` fails
      before the counter moves; the image is saved (decoded by the image
      library, or as raw bytes when decoding fails); or the raw write
      fails after the counter moved. */
  datatype SaveOutcome = DirFailed | Saved(decoded: bool) | WriteFailed

  /** What one attempt meets: a timeout, another request exception, or a
      response with its status code, content type and save outcome. */
  datatype Reply = Timeout | RequestFailed | Status(code: nat, contentType: string, save: SaveOutcome)

  /** The state the loop threads: `self.image_count` and the paths that exist. */
  datatype Store = Store(count: nat, files: set<string>)

  /** What the loop cannot compute itself: the image directory, `urljoin`
      against the page URL, the path of a URL, and the MD5 hex digest. */
  datatype Env = Env(imageDir: string, resolve: string -> string, urlPath: string -> string, md5Hex: string -> string)

  /** The outcome of a call: the returned path, the new state, how many
      attempts were made and how long the loop slept, in seconds. */
  datatype Fetch = Fetch(path: Option<string>, store: Store, attempts: nat, sleeps: seq<nat>)

  /** `raise_for_status` raises for client and server errors. */
  predicate IsHttpError(code: nat)
  {
    400 <= code < 600
  }

  /** Replies after which the loop sleeps before the next attempt. */
  predicate BacksOff(reply: Reply)
  {
    reply.Timeout? || reply.RequestFailed? || (reply.Status? && IsHttpError(reply.code))
  }

  /** 200 responses whose save block got past `os.makedirs`, so that the
      counter moved. */
  predicate Counted(reply: Reply)
  {
    reply.Status? && reply.code == 200 && !reply.save.DirFailed?
  }

  /** Replies after which the loop tries again if an attempt remains. */
  predicate Retryable(reply: Reply)
  {
    BacksOff(reply) || (reply.Status? && reply.code == 200 && !reply.save.Saved?)
  }

  /** Replies that end the loop with a path. */
  predicate IsSaved(reply: Reply)
  {
    reply.Status? && reply.code == 200 && reply.save.Saved?
  }

  function Pow2(k: nat): nat
  {
    if k == 0 then 1 else 2 * Pow2(k - 1)
  }

  /** The successful save block: the counter moves, then the first free
      name for the new count is taken and the file is written. */
  function Save(env: Env, url: string, st: Store, contentType: string): (r: (string, Store))
    ensures r.0 !in st.files
    ensures r.1 == Store(st.count + 1, st.files + {r.0})
    ensures var stem, ext := Stem(st.count + 1, Take8(env.md5Hex(url))), ChooseExt(contentType, env.urlPath(url));
            exists k: nat :: && r.0 == Candidate(env.imageDir, stem, ext, k)
                             && forall j :: 0 <= j < k ==> Candidate(env.imageDir, stem, ext, j) in st.files
  {
    var n := st.count + 1;
    var ext := ChooseExt(contentType, env.urlPath(url));
    var stem := Stem(n, Take8(env.md5Hex(url)));
    var k := FreeSuffix(env.imageDir, stem, ext, st.files, 0);
    var path := Candidate(env.imageDir, stem, ext, k);
    (path, Store(n, st.files + {path}))
  }

  /** One sleep of `2 ** i` seconds for each attempt `i` in `[lo, hi)`
      that backed off. */
  function SleepsFor(net: seq<Reply>, lo: nat, hi: nat): seq<nat>
    requires lo <= hi <= |net|
    decreases hi - lo
  {
    if lo == hi then []
    else (if BacksOff(net[lo]) then [Pow2(lo)] else []) + SleepsFor(net, lo + 1, hi)
  }

  /** How many attempts in `[lo, hi)` moved the counter. */
  function CountedIn(net: seq<Reply>, lo: nat, hi: nat): nat
    requires lo <= hi <= |net|
    decreases hi - lo
  {
    if lo == hi then 0
    else (if Counted(net[lo]) then 1 else 0) + CountedIn(net, lo + 1, hi)
  }

  /** The retry loop of `download_image`, up to `max_retries` attempts,
      from attempt `a` on, with the state and the sleeps so far. */
  function Attempts(env: Env, url: string, st: Store, net: seq<Reply>, a: nat, sleeps: seq<nat>): (r: Fetch)
    requires |net| == MaxRetries && a <= MaxRetries
    decreases MaxRetries - a, 1
  {
    if a == MaxRetries then Fetch(None, st, a, sleeps)
    else match net[a]
      case Timeout => BackOff(env, url, st, net, a, sleeps)
      case RequestFailed => BackOff(env, url, st, net, a, sleeps)
      case Status(code, contentType, save) =>
        if IsHttpError(code) then BackOff(env, url, st, net, a, sleeps)
        else if code == 200 then
          match save
          case DirFailed => Retry(env, url, st, net, a, sleeps)
          case WriteFailed => Retry(env, url, Store(st.count + 1, st.files), net, a, sleeps)
          case Saved(_) =>
            var (path, st') := Save(env, url, st, contentType);
            Fetch(Some(path), st', a + 1, sleeps)
        else if code == 429 then BackOff(env, url, st, net, a, sleeps)
        else Fetch(None, st, a + 1, sleeps)
  }

  /** After a timeout or a request exception: sleep `2 ** a` seconds and
      go on if an attempt remains, else stop. */
  function BackOff(env: Env, url: string, st: Store, net: seq<Reply>, a: nat, sleeps: seq<nat>): (r: Fetch)
    requires |net| == MaxRetries && a < MaxRetries
    decreases MaxRetries - a, 0
  {
    if a < MaxRetries - 1 then Attempts(env, url, st, net, a + 1, sleeps + [Pow2(a)])
    else Fetch(None, st, a + 1, sleeps)
  }

  /** After a failed save: go on at once if an attempt remains, else stop. */
  function Retry(env: Env, url: string, st: Store, net: seq<Reply>, a: nat, sleeps: seq<nat>): (r: Fetch)
    requires |net| == MaxRetries && a < MaxRetries
    decreases MaxRetries - a, 0
  {
    if a < MaxRetries - 1 then Attempts(env, url, st, net, a + 1, sleeps)
    else Fetch(None, st, a + 1, sleeps)
  }

  /** The URL the loop fetches: an `http://` or `https://` URL as it
      is, anything else joined onto the page URL. */
  function Resolved(env: Env, imgUrl: string): string
  {
    if StartsWith(imgUrl, "http://") || StartsWith(imgUrl, "https://") then imgUrl else env.resolve(imgUrl)
  }

  /** `download_image(img_url)`: a `data:` URL is skipped, anything else
      goes to the loop. */
  function DownloadImage(env: Env, st: Store, imgUrl: string, net: seq<Reply>): (r: Fetch)
    requires |net| == MaxRetries
  {
    var url := Resolved(env, imgUrl);
    if StartsWith(url, "data:") then Fetch(None, st, 0, [])
    else Attempts(env, url, st, net, 0, [])
  }

  // ---------------------------------------------------------------------
  // What the loop promises.
  // ---------------------------------------------------------------------

  /** What a call of the loop from attempt `a` amounts to. */
  ghost predicate LoopFacts(env: Env, url: string, st: Store, net: seq<Reply>, a: nat, sleeps: seq<nat>, r: Fetch)
    requires |net| == MaxRetries && a < MaxRetries
  {
    && a < r.attempts <= MaxRetries
    // every attempt but the last failed in a way that is retried
    && (forall i :: a <= i < r.attempts - 1 ==> Retryable(net[i]))
    // the loop stops early only on a reply it does not retry
    && (r.attempts < MaxRetries ==> !Retryable(net[r.attempts - 1]))
    // a path comes back exactly when the last attempt saved the image
    && (r.path.Some? <==> IsSaved(net[r.attempts - 1]))
    // one sleep of 2 ** i seconds after each attempt i that backed off
    && r.sleeps == sleeps + SleepsFor(net, a, r.attempts - 1)
    // the counter moves once for each 200 response that got past makedirs
    && r.store.count == st.count + CountedIn(net, a, r.attempts)
    // the only file added is the returned one, and it did not exist
    && r.store.files == st.files + (if r.path.Some? then {r.path.value} else {})
    && (r.path.Some? ==> r.path.value !in st.files)
    // it lies in the image directory, is named after the final count, and
    // is the first of the names tried for that count that did not exist
    && (r.path.Some? ==>
          var stem := Stem(r.store.count, Take8(env.md5Hex(url)));
          var ext := ChooseExt(net[r.attempts - 1].contentType, env.urlPath(url));
          exists k: nat :: && r.path.value == Candidate(env.imageDir, stem, ext, k)
                           && forall j :: 0 <= j < k ==> Candidate(env.imageDir, stem, ext, j) in st.files)
  }

  lemma SleepsForCons(net: seq<Reply>, lo: nat, hi: nat, sleeps: seq<nat>)
    requires lo < hi <= |net|
    ensures sleeps + SleepsFor(net, lo, hi)
         == (sleeps + (if BacksOff(net[lo]) then [Pow2(lo)] else [])) + SleepsFor(net, lo + 1, hi)
  {
  }

  /** The state after an attempt that did not save: the counter moved
      if the response got past `os.makedirs`. */
  function Advance(st: Store, reply: Reply): Store
  {
    if Counted(reply) then Store(st.count + 1, st.files) else st
  }

  /** The sleep after an attempt `a` that is retried. */
  function Pause(reply: Reply, a: nat): seq<nat>
  {
    if BacksOff(reply) then [Pow2(a)] else []
  }

  /** The outcome when attempt `a` is the last one made. */
  function Stop(env: Env, url: string, st: Store, reply: Reply, a: nat, sleeps: seq<nat>): Fetch
  {
    if IsSaved(reply) then
      var (path, st') := Save(env, url, st, reply.contentType);
      Fetch(Some(path), st', a + 1, sleeps)
    else Fetch(None, Advance(st, reply), a + 1, sleeps)
  }

  /** One turn of the loop: retry, or stop. */
  lemma AttemptsUnfold(env: Env, url: string, st: Store, net: seq<Reply>, a: nat, sleeps: seq<nat>)
    requires |net| == MaxRetries && a < MaxRetries
    ensures Attempts(env, url, st, net, a, sleeps)
         == if Retryable(net[a]) && a < MaxRetries - 1
            then Attempts(env, url, Advance(st, net[a]), net, a + 1, sleeps + Pause(net[a], a))
            else Stop(env, url, st, net[a], a, sleeps)
  {
    var reply := net[a];
    if reply.Status? && !IsHttpError(reply.code) && reply.code == 200 {
      match reply.save
      case DirFailed =>
        assert sleeps + Pause(reply, a) == sleeps;
        assert Advance(st, reply) == st;
      case WriteFailed =>
        assert sleeps + Pause(reply, a) == sleeps;
        assert Advance(st, reply) == Store(st.count + 1, st.files);
      case Saved(_) =>
        var (path, st') := Save(env, url, st, reply.contentType);
        assert Attempts(env, url, st, net, a, sleeps) == Fetch(Some(path), st', a + 1, sleeps);
    }
  }

  lemma StopFacts(env: Env, url: string, st: Store, net: seq<Reply>, a: nat, sleeps: seq<nat>)
    requires |net| == MaxRetries && a < MaxRetries
    requires !(Retryable(net[a]) && a < MaxRetries - 1)
    ensures LoopFacts(env, url, st, net, a, sleeps, Stop(env, url, st, net[a], a, sleeps))
  {
    var reply := net[a];
    var r := Stop(env, url, st, reply, a, sleeps);
    assert SleepsFor(net, a, a) == [];
    assert CountedIn(net, a, a + 1) == if Counted(reply) then 1 else 0;
    if IsSaved(reply) {
      var (path, st') := Save(env, url, st, reply.contentType);
      assert r == Fetch(Some(path), st', a + 1, sleeps);
    }
  }

  lemma StepFacts(env: Env, url: string, st: Store, net: seq<Reply>, a: nat, sleeps: seq<nat>)
    requires |net| == MaxRetries && a < MaxRetries - 1 && Retryable(net[a])
    requires LoopFacts(env, url, Advance(st, net[a]), net, a + 1, sleeps + Pause(net[a], a),
                       Attempts(env, url, Advance(st, net[a]), net, a + 1, sleeps + Pause(net[a], a)))
    ensures LoopFacts(env, url, st, net, a, sleeps,
                      Attempts(env, url, Advance(st, net[a]), net, a + 1, sleeps + Pause(net[a], a)))
  {
    var r := Attempts(env, url, Advance(st, net[a]), net, a + 1, sleeps + Pause(net[a], a));
    SleepsForCons(net, a, r.attempts - 1, sleeps);
    assert !IsSaved(net[a]);
  }

  /** The loop from attempt `a` on, against the script `net`. */
  lemma {:induction false} AttemptsFacts(env: Env, url: string, st: Store, net: seq<Reply>, a: nat, sleeps: seq<nat>)
    requires |net| == MaxRetries && a < MaxRetries
    ensures LoopFacts(env, url, st, net, a, sleeps, Attempts(env, url, st, net, a, sleeps))
    decreases MaxRetries - a
  {
    AttemptsUnfold(env, url, st, net, a, sleeps);
    if Retryable(net[a]) && a < MaxRetries - 1 {
      AttemptsFacts(env, url, Advance(st, net[a]), net, a + 1, sleeps + Pause(net[a], a));
      StepFacts(env, url, st, net, a, sleeps);
    } else {
      StopFacts(env, url, st, net, a, sleeps);
    }
  }

  /** Before the third attempt the loop has slept for at most the first
      two back-off periods, one and two seconds. */
  lemma SleepSchedule(net: seq<Reply>, hi: nat)
    requires hi <= 2 <= |net|
    ensures SleepsFor(net, 0, hi) in {[], [1], [2], [1, 2]}
  {
    if hi == 2 {
      var p0, p1 := Pause(net[0], 0), Pause(net[1], 1);
      assert p0 == [] || p0 == [1];
      assert p1 == [] || p1 == [2];
      assert SleepsFor(net, 0, 2) == p0 + (p1 + SleepsFor(net, 2, 2));
      assert p1 + [] == p1;
      if p0 == [] {
        assert p0 + p1 == p1;
      } else if p1 == [] {
        assert p0 + p1 == [1];
      } else {
        assert p0 + p1 == [1, 2];
      }
    } else if hi == 1 {
      assert SleepsFor(net, 0, 1) == Pause(net[0], 0) + SleepsFor(net, 1, 1);
      assert Pause(net[0], 0) + [] == Pause(net[0], 0);
    }
  }

  /** `download_image` against the script `net`: a `data:` URL costs no
      attempt and changes nothing; any other URL makes one to three
      attempts with the promises of the loop, and sleeps one second after
      a failed first attempt and two after a failed second one. */
  lemma DownloadFacts(env: Env, st: Store, imgUrl: string, net: seq<Reply>)
    requires |net| == MaxRetries
    ensures var url := Resolved(env, imgUrl);
            var r := DownloadImage(env, st, imgUrl, net);
            && (StartsWith(url, "data:") ==> r == Fetch(None, st, 0, []))
            && (!StartsWith(url, "data:") ==>
                  && LoopFacts(env, url, st, net, 0, [], r)
                  && r.sleeps in {[], [1], [2], [1, 2]})
  {
    var url := Resolved(env, imgUrl);
    if !StartsWith(url, "data:") {
      var r := Attempts(env, url, st, net, 0, []);
      AttemptsFacts(env, url, st, net, 0, []);
      SleepSchedule(net, r.attempts - 1);
      assert [] + SleepsFor(net, 0, r.attempts - 1) == SleepsFor(net, 0, r.attempts - 1);
    }
  }

  /** Replies the loop cannot tell apart: any two that back off, and two
      saves under the same content type whether or not the image decoded. */
  predicate Alike(x: Reply, y: Reply)
  {
    x == y || (BacksOff(x) && BacksOff(y)) || (IsSaved(x) && IsSaved(y) && x.contentType == y.contentType)
  }

  /** Scripts whose replies are alike, attempt by attempt, lead to the
      same outcome. */
  lemma {:induction false} AlikeScripts(env: Env, url: string, st: Store, net: seq<Reply>, net': seq<Reply>,
                                        a: nat, sleeps: seq<nat>)
    requires |net| == |net'| == MaxRetries && a <= MaxRetries
    requires forall j :: a <= j < MaxRetries ==> Alike(net[j], net'[j])
    ensures Attempts(env, url, st, net, a, sleeps) == Attempts(env, url, st, net', a, sleeps)
    decreases MaxRetries - a
  {
    if a < MaxRetries {
      AttemptsUnfold(env, url, st, net, a, sleeps);
      AttemptsUnfold(env, url, st, net', a, sleeps);
      assert Retryable(net[a]) == Retryable(net'[a]);
      assert Advance(st, net[a]) == Advance(st, net'[a]);
      assert Pause(net[a], a) == Pause(net'[a], a);
      if Retryable(net[a]) && a < MaxRetries - 1 {
        AlikeScripts(env, url, Advance(st, net[a]), net, net', a + 1, sleeps + Pause(net[a], a));
      } else {
        assert Stop(env, url, st, net[a], a, sleeps) == Stop(env, url, st, net'[a], a, sleeps);
      }
    }
  }

  /** An HTTP error is handled as a request exception: the `429` branch
      after `raise_for_status` is never reached, and a rate-limited
      attempt backs off like any other error. */
  lemma HttpErrorIsRequestFailure(env: Env, st: Store, imgUrl: string, net: seq<Reply>, i: nat,
                                  code: nat, contentType: string, save: SaveOutcome)
    requires |net| == MaxRetries && i < MaxRetries && IsHttpError(code)
    ensures DownloadImage(env, st, imgUrl, net[i := Status(code, contentType, save)])
         == DownloadImage(env, st, imgUrl, net[i := RequestFailed])
  {
    AlikeScripts(env, Resolved(env, imgUrl), st, net[i := Status(code, contentType, save)], net[i := RequestFailed], 0, []);
  }

  /** Whether the image library decoded the image or the raw bytes were
      written makes no difference to the returned path or the state. */
  lemma DecodingIrrelevant(env: Env, st: Store, imgUrl: string, net: seq<Reply>, i: nat, contentType: string)
    requires |net| == MaxRetries && i < MaxRetries
    ensures DownloadImage(env, st, imgUrl, net[i := Status(200, contentType, Saved(true))])
         == DownloadImage(env, st, imgUrl, net[i := Status(200, contentType, Saved(false))])
  {
    AlikeScripts(env, Resolved(env, imgUrl), st, net[i := Status(200, contentType, Saved(true))],
                 net[i := Status(200, contentType, Saved(false))], 0, []);
  }

  /** Three timeouts in a row: three attempts, sleeps of one and two
      seconds, no path, and nothing changes. */
  lemma ThreeTimeouts(env: Env, st: Store, url: string)
    requires StartsWith(url, "https://")
    ensures DownloadImage(env, st, url, [Timeout, Timeout, Timeout]) == Fetch(None, st, 3, [1, 2])
  {
    assert !StartsWith(url, "data:") by {
      assert url[0] == 'h';
    }
  }
}
