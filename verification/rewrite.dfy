/**
  The image pass of `process_html`: every `<img>` of the cleaned page,
  in document order, has its source downloaded and, when the download
  succeeds, points at the local copy; then a sweep over every tag turns
  each absolute URL left in an alternate source attribute into a new
  `<img>` child, downloaded the same way.

  The downloader is a parameter: `fetch` maps the downloader's state and
  a URL to the local path (or nothing) and the next state, and `resolve`
  is `urljoin` against the page URL.
 */
module ImageRewrite {
  import opened Options
  import opened PyStr
  import opened Dom

  /** The attributes an image's URL is looked up in, in priority order. */
  const SourceAttrs: seq<string> :=
    ["src", "data-src", "data-original", "data-actualsrc", "data-original-src", "data-src-retina"]

  /** The attributes removed from an image once it points at its local copy. */
  const StaleAttrs: set<string> :=
    {"data-src", "srcset", "data-srcset", "data-original", "data-actualsrc", "data-original-src", "data-src-retina"}

  /** The attributes the sweep looks for image URLs in, in order. */
  const AltAttrs: seq<string> :=
    ["data-src", "data-original", "data-actualsrc", "data-original-src", "data-src-retina"]

  datatype Fetcher<!S> = Fetcher(resolve: string -> string, fetch: (S, string) -> (Option<string>, S))

  /** An image's attributes after processing, the downloader's state and
      the URLs handed to the downloader. */
  datatype Outcome<S> = Outcome(attrs: map<string, string>, state: S, calls: seq<string>)

  /** A rewritten forest, the downloader's state and the URLs handed to it. */
  datatype Pass<S> = Pass(doc: seq<Node>, state: S, calls: seq<string>)

  /** `img.get(name)` is truthy. */
  predicate IsSet(attrs: map<string, string>, name: string)
  {
    name in attrs && attrs[name] != []
  }

  /** The value of the first of `names` that is set. */
  function FirstSet(attrs: map<string, string>, names: seq<string>): (r: Option<string>)
    ensures r.None? <==> forall i :: 0 <= i < |names| ==> !IsSet(attrs, names[i])
  {
    if names == [] then None
    else if IsSet(attrs, names[0]) then Some(attrs[names[0]])
    else FirstSet(attrs, names[1..])
  }

  /** A value found is the value of a name that is set, and no earlier
      name is set. */
  lemma {:induction false} FirstSetIsFirst(attrs: map<string, string>, names: seq<string>)
    requires FirstSet(attrs, names).Some?
    ensures exists i :: 0 <= i < |names| && IsSet(attrs, names[i]) && attrs[names[i]] == FirstSet(attrs, names).value
                        && forall j :: 0 <= j < i ==> !IsSet(attrs, names[j])
    decreases |names|
  {
    if !IsSet(attrs, names[0]) {
      var tail := names[1..];
      FirstSetIsFirst(attrs, tail);
      var i :| 0 <= i < |tail| && IsSet(attrs, tail[i]) && attrs[tail[i]] == FirstSet(attrs, tail).value
               && forall j :: 0 <= j < i ==> !IsSet(attrs, tail[j]);
      forall j | 0 <= j < i + 1 ensures !IsSet(attrs, names[j]) {
        if j > 0 { assert names[j] == tail[j - 1]; }
      }
      assert names[i + 1] == tail[i];
    } else {
      assert attrs[names[0]] == FirstSet(attrs, names).value;
    }
  }

  /** The URL of an image: the first non-empty of its source attributes. */
  function SourceOf(attrs: map<string, string>): Option<string>
  {
    FirstSet(attrs, SourceAttrs)
  }

  /** An image that pointed somewhere now has a `src`, has none of the
      stale attributes, and keeps every other attribute as it was. */
  ghost predicate Replaced(before: map<string, string>, after: map<string, string>)
  {
    && SourceOf(before).Some?
    && "src" in after
    && (forall k :: k in StaleAttrs ==> k !in after)
    && (forall k :: k != "src" && k !in StaleAttrs ==> (k in after <==> k in before))
    && (forall k :: k != "src" && k !in StaleAttrs && k in before ==> after[k] == before[k])
  }

  /** An image's attributes are either untouched or replaced. */
  ghost predicate Settled(before: map<string, string>, after: map<string, string>)
  {
    after == before || Replaced(before, after)
  }

  /** `process_image(img)` on the attributes of an image. */
  function ProcessImage<S>(f: Fetcher<S>, st: S, attrs: map<string, string>): (r: Outcome<S>)
    ensures SourceOf(attrs).None? ==> r == Outcome(attrs, st, [])
    ensures SourceOf(attrs).Some? ==> r.calls == [f.resolve(SourceOf(attrs).value)]
    ensures SourceOf(attrs).Some? ==> r.state == f.fetch(st, r.calls[0]).1
    ensures Settled(attrs, r.attrs)
    ensures r.attrs != attrs ==> Some(r.attrs["src"]) == f.fetch(st, r.calls[0]).0
    ensures r.calls != [] && f.fetch(st, r.calls[0]).0.None? ==> r.attrs == attrs
  {
    match SourceOf(attrs)
    case None => Outcome(attrs, st, [])
    case Some(src) =>
      var url := f.resolve(src);
      var (path, st') := f.fetch(st, url);
      match path
      case None => Outcome(attrs, st', [url])
      case Some(p) => Outcome((attrs - StaleAttrs)["src" := p], st', [url])
  }

  /** An image that now points at its local copy carries nothing more
      for the sweep to find. */
  lemma ReplacedLeavesNoAlternate(before: map<string, string>, after: map<string, string>)
    requires Replaced(before, after)
    ensures forall i :: 0 <= i < |AltAttrs| ==> AltAttrs[i] !in after
  {
    forall i | 0 <= i < |AltAttrs| ensures AltAttrs[i] !in after {
      assert AltAttrs[i] in StaleAttrs;
    }
  }

  // ---------------------------------------------------------------------
  // The main pass: every image, in document order.
  // ---------------------------------------------------------------------

  /** `process_image` on every image of the page, in document order. */
  function RewriteImages<S>(f: Fetcher<S>, st: S, s: seq<Node>): (r: Pass<S>)
    decreases s, 1
  {
    if s == [] then Pass([], st, [])
    else
      var h := RewriteNode(f, st, s[0]);
      var t := RewriteImages(f, h.state, s[1..]);
      Pass(h.doc + t.doc, t.state, h.calls + t.calls)
  }

  /** One node and everything below it: an image is processed before
      its descendants. */
  function RewriteNode<S>(f: Fetcher<S>, st: S, n: Node): (r: Pass<S>)
    ensures |r.doc| == 1
    decreases n, 0
  {
    match n
    case Element(name, attrs, cs) =>
      var o := if name == "img" then ProcessImage(f, st, attrs) else Outcome(attrs, st, []);
      var c := RewriteImages(f, o.state, cs);
      Pass([Element(name, o.attrs, c.doc)], c.state, o.calls + c.calls)
    case other => Pass([other], st, [])
  }

  /** The page with every image's attributes blanked out: what the main
      pass may not change. */
  function Skeleton(s: seq<Node>): (r: seq<Node>)
    ensures |r| == |s|
    decreases s
  {
    if s == [] then []
    else
      var here := match s[0]
        case Element(name, attrs, cs) => Element(name, if name == "img" then map[] else attrs, Skeleton(cs))
        case other => other;
      [here] + Skeleton(s[1..])
  }

  /** The URLs the main pass hands to the downloader: the resolved
      source of each image that has one, in document order. */
  function Requests(resolve: string -> string, s: seq<Node>): seq<string>
    decreases s
  {
    if s == [] then []
    else
      var here := match s[0]
        case Element(name, attrs, cs) =>
          (if name == "img" && SourceOf(attrs).Some? then [resolve(SourceOf(attrs).value)] else [])
          + Requests(resolve, cs)
        case _ => [];
      here + Requests(resolve, s[1..])
  }

  /** The attributes of every image, in document order. */
  function ImageAttrs(s: seq<Node>): seq<map<string, string>>
    decreases s
  {
    if s == [] then []
    else
      var here := match s[0]
        case Element(name, attrs, cs) => (if name == "img" then [attrs] else []) + ImageAttrs(cs)
        case _ => [];
      here + ImageAttrs(s[1..])
  }

  /** Image by image, the attributes after the pass settle those before. */
  ghost predicate AllSettled(before: seq<map<string, string>>, after: seq<map<string, string>>)
  {
    |before| == |after| && forall i :: 0 <= i < |before| ==> Settled(before[i], after[i])
  }

  lemma AllSettledConcat(a: seq<map<string, string>>, a': seq<map<string, string>>,
                         b: seq<map<string, string>>, b': seq<map<string, string>>)
    requires AllSettled(a, a') && AllSettled(b, b')
    ensures AllSettled(a + b, a' + b')
  {
    forall i | 0 <= i < |a + b| ensures Settled((a + b)[i], (a' + b')[i]) {
      if i >= |a| {
        assert (a + b)[i] == b[i - |a|] && (a' + b')[i] == b'[i - |a|];
      }
    }
  }

  lemma {:induction false} SkeletonConcat(a: seq<Node>, b: seq<Node>)
    ensures Skeleton(a + b) == Skeleton(a) + Skeleton(b)
    decreases a
  {
    if a == [] {
      assert a + b == b;
    } else {
      assert (a + b)[0] == a[0];
      assert (a + b)[1..] == a[1..] + b;
      SkeletonConcat(a[1..], b);
    }
  }

  lemma {:induction false} ImageAttrsConcat(a: seq<Node>, b: seq<Node>)
    ensures ImageAttrs(a + b) == ImageAttrs(a) + ImageAttrs(b)
    decreases a
  {
    if a == [] {
      assert a + b == b;
    } else {
      assert (a + b)[0] == a[0];
      assert (a + b)[1..] == a[1..] + b;
      ImageAttrsConcat(a[1..], b);
    }
  }

  lemma {:induction false} RequestsConcat(resolve: string -> string, a: seq<Node>, b: seq<Node>)
    ensures Requests(resolve, a + b) == Requests(resolve, a) + Requests(resolve, b)
    decreases a
  {
    if a == [] {
      assert a + b == b;
    } else {
      assert (a + b)[0] == a[0];
      assert (a + b)[1..] == a[1..] + b;
      RequestsConcat(resolve, a[1..], b);
    }
  }

  /** What the main pass promises about one rewritten forest. */
  ghost predicate RewriteFacts<S>(f: Fetcher<S>, s: seq<Node>, r: Pass<S>)
  {
    && Skeleton(r.doc) == Skeleton(s)
    && r.calls == Requests(f.resolve, s)
    && AllSettled(ImageAttrs(s), ImageAttrs(r.doc))
  }

  lemma RewriteNodeFacts<S>(f: Fetcher<S>, st: S, n: Node)
    requires n.Element? ==>
               var o := if n.name == "img" then ProcessImage(f, st, n.attrs) else Outcome(n.attrs, st, []);
               RewriteFacts(f, n.children, RewriteImages(f, o.state, n.children))
    ensures RewriteFacts(f, [n], RewriteNode(f, st, n))
  {
    assert [n][0] == n && [n][1..] == [];
    match n
    case Element(name, attrs, cs) =>
      var o := if name == "img" then ProcessImage(f, st, attrs) else Outcome(attrs, st, []);
      var c := RewriteImages(f, o.state, cs);
      var one := RewriteNode(f, st, n);
      assert one.doc == [Element(name, o.attrs, c.doc)];
      assert one.doc[0] == Element(name, o.attrs, c.doc) && one.doc[1..] == [];
      assert Skeleton(one.doc) == Skeleton([n]);
      assert Requests(f.resolve, [n]) == one.calls;
      if name == "img" {
        assert ImageAttrs([n]) == [attrs] + ImageAttrs(cs);
        assert ImageAttrs(one.doc) == [o.attrs] + ImageAttrs(c.doc);
        AllSettledConcat([attrs], [o.attrs], ImageAttrs(cs), ImageAttrs(c.doc));
      } else {
        assert ImageAttrs([n]) == [] + ImageAttrs(cs);
        assert ImageAttrs(one.doc) == [] + ImageAttrs(c.doc);
      }
    case _ =>
  }

  lemma RewriteJoin<S>(f: Fetcher<S>, s: seq<Node>, one: Pass<S>, t: Pass<S>)
    requires s != []
    requires RewriteFacts(f, [s[0]], one) && RewriteFacts(f, s[1..], t)
    ensures RewriteFacts(f, s, Pass(one.doc + t.doc, t.state, one.calls + t.calls))
  {
    assert s == [s[0]] + s[1..];
    SkeletonConcat(one.doc, t.doc);
    SkeletonConcat([s[0]], s[1..]);
    ImageAttrsConcat(one.doc, t.doc);
    ImageAttrsConcat([s[0]], s[1..]);
    RequestsConcat(f.resolve, [s[0]], s[1..]);
    AllSettledConcat(ImageAttrs([s[0]]), ImageAttrs(one.doc), ImageAttrs(s[1..]), ImageAttrs(t.doc));
  }

  /** The main pass changes the attributes of images and nothing else;
      it hands the downloader the resolved source of each image that has
      one, in document order; and each image is either untouched or
      points at its local copy, without the stale attributes. */
  lemma {:induction false} RewriteImagesFacts<S>(f: Fetcher<S>, st: S, s: seq<Node>)
    ensures RewriteFacts(f, s, RewriteImages(f, st, s))
    decreases s
  {
    if s != [] {
      var n := s[0];
      if n.Element? {
        var o := if n.name == "img" then ProcessImage(f, st, n.attrs) else Outcome(n.attrs, st, []);
        RewriteImagesFacts(f, o.state, n.children);
      }
      RewriteNodeFacts(f, st, n);
      var h := RewriteNode(f, st, n);
      RewriteImagesFacts(f, h.state, s[1..]);
      RewriteJoin(f, s, h, RewriteImages(f, h.state, s[1..]));
    }
  }

  /** With a downloader that never succeeds the page comes back as it was. */
  lemma {:induction false} RewriteWithoutDownloads<S>(f: Fetcher<S>, st: S, s: seq<Node>)
    requires forall st': S, url: string :: f.fetch(st', url).0.None?
    ensures RewriteImages(f, st, s).doc == s
    decreases s
  {
    if s != [] {
      var n := s[0];
      var h := RewriteNode(f, st, n);
      if n.Element? {
        var o := if n.name == "img" then ProcessImage(f, st, n.attrs) else Outcome(n.attrs, st, []);
        RewriteWithoutDownloads(f, o.state, n.children);
        if n.name == "img" && SourceOf(n.attrs).Some? {
          assert f.fetch(st, o.calls[0]).0.None?;
        }
        assert h.doc == [n];
      }
      RewriteWithoutDownloads(f, h.state, s[1..]);
      assert s == [n] + s[1..];
    }
  }

  // ---------------------------------------------------------------------
  // The sweep: absolute URLs left in alternate attributes.
  // ---------------------------------------------------------------------

  /** A non-empty `src` that starts with `http://` or `https://`. */
  predicate IsAbsolute(url: string)
  {
    StartsWith(url, "http://") || StartsWith(url, "https://")
  }

  /** The URLs a tag carries in the alternate attributes among `names`,
      in order; a URL carried twice is listed twice. */
  function CarriedUrls(attrs: map<string, string>, names: seq<string>): (r: seq<string>)
    ensures |r| <= |names|
    ensures forall i :: 0 <= i < |r| ==> IsAbsolute(r[i]) && r[i] in attrs.Values
  {
    if names == [] then []
    else
      var here := if names[0] in attrs && IsAbsolute(attrs[names[0]]) then [attrs[names[0]]] else [];
      here + CarriedUrls(attrs, names[1..])
  }

  /** Every carried URL is non-empty. */
  lemma CarriedNonEmpty(attrs: map<string, string>, names: seq<string>)
    ensures forall i :: 0 <= i < |CarriedUrls(attrs, names)| ==> CarriedUrls(attrs, names)[i] != []
  {
    var urls := CarriedUrls(attrs, names);
    forall i | 0 <= i < |urls| ensures urls[i] != [] {
      assert IsAbsolute(urls[i]);
    }
  }

  /** The carried URLs of two lists of names are those of the first list
      followed by those of the second. */
  lemma {:induction false} CarriedUrlsConcat(attrs: map<string, string>, a: seq<string>, b: seq<string>)
    ensures CarriedUrls(attrs, a + b) == CarriedUrls(attrs, a) + CarriedUrls(attrs, b)
    decreases |a|
  {
    if a != [] {
      assert (a + b)[0] == a[0] && (a + b)[1..] == a[1..] + b;
      CarriedUrlsConcat(attrs, a[1..], b);
    } else {
      assert a + b == b;
    }
  }

  /** One name contributes its value exactly when it is present and an
      absolute URL. */
  lemma CarriedUrlsOne(attrs: map<string, string>, name: string)
    ensures CarriedUrls(attrs, [name]) == if name in attrs && IsAbsolute(attrs[name]) then [attrs[name]] else []
  {
    assert [name][1..] == [];
  }

  /** No absolute URL among the named attributes is missed. */
  lemma {:induction false} CarriedUrlsComplete(attrs: map<string, string>, names: seq<string>)
    ensures forall j :: 0 <= j < |names| && names[j] in attrs && IsAbsolute(attrs[names[j]]) ==>
              attrs[names[j]] in CarriedUrls(attrs, names)
    decreases |names|
  {
    if names != [] {
      CarriedUrlsComplete(attrs, names[1..]);
      forall j | 1 <= j < |names| ensures names[j] == names[1..][j - 1] {
      }
    }
  }

  /** `v` is the value of one of the attributes `names`. */
  ghost predicate ValueOfOneOf(attrs: map<string, string>, names: seq<string>, v: string)
  {
    exists j :: 0 <= j < |names| && names[j] in attrs && v == attrs[names[j]]
  }

  /** Every carried URL is the value of one of the named attributes. */
  lemma {:induction false} CarriedUrlsNamed(attrs: map<string, string>, names: seq<string>)
    ensures forall i :: 0 <= i < |CarriedUrls(attrs, names)| ==> ValueOfOneOf(attrs, names, CarriedUrls(attrs, names)[i])
    decreases |names|
  {
    if names != [] {
      var r, t := CarriedUrls(attrs, names), CarriedUrls(attrs, names[1..]);
      CarriedUrlsNamed(attrs, names[1..]);
      var here := if names[0] in attrs && IsAbsolute(attrs[names[0]]) then [attrs[names[0]]] else [];
      assert r == here + t;
      var d := |here|;
      forall i | 0 <= i < |r| ensures ValueOfOneOf(attrs, names, r[i]) {
        if i < d {
          assert names[0] in attrs && r[i] == attrs[names[0]];
        } else {
          assert r[i] == t[i - d];
          assert ValueOfOneOf(attrs, names[1..], t[i - d]);
          var j :| 0 <= j < |names[1..]| && names[1..][j] in attrs && t[i - d] == attrs[names[1..][j]];
          assert names[j + 1] == names[1..][j];
        }
      }
    } else {
      assert CarriedUrls(attrs, names) == [];
    }
  }

  /** The new `<img>` children for the URLs `urls`, each processed in turn. */
  function NewImages<S>(f: Fetcher<S>, st: S, urls: seq<string>): (r: Pass<S>)
    ensures |r.doc| == |urls|
  {
    if urls == [] then Pass([], st, [])
    else
      var o := ProcessImage(f, st, map["src" := urls[0]]);
      var rest := NewImages(f, o.state, urls[1..]);
      Pass([Element("img", o.attrs, [])] + rest.doc, rest.state, o.calls + rest.calls)
  }

  /** A childless `<img>` whose only attribute is `src`: the kind of node
      the sweep adds. */
  predicate IsBareImg(n: Node)
  {
    IsImg(n) && n.children == [] && n.attrs.Keys == {"src"}
  }

  /** The image made for one carried URL is bare, and the URL is
      downloaded once. */
  lemma NewImageHead<S>(f: Fetcher<S>, st: S, u: string)
    requires u != []
    ensures var o := ProcessImage(f, st, map["src" := u]);
            && IsBareImg(Element("img", o.attrs, []))
            && o.calls == [f.resolve(u)]
  {
    var a := map["src" := u];
    assert SourceOf(a) == Some(u);
    var o := ProcessImage(f, st, a);
    assert o.attrs.Keys == {"src"} by {
      if o.attrs != a {
        assert forall k :: k in o.attrs ==> k == "src";
      }
    }
  }

  /** The facts of `NewImagesFacts` for a result built from its first
      image and the result for the other URLs. */
  predicate NewImagesShape<S>(f: Fetcher<S>, urls: seq<string>, doc: seq<Node>, calls: seq<string>)
    requires |doc| == |urls|
  {
    && (forall i :: 0 <= i < |urls| ==> IsBareImg(doc[i]))
    && calls == seq(|urls|, i requires 0 <= i < |urls| => f.resolve(urls[i]))
  }

  lemma NewImagesJoin<S>(f: Fetcher<S>, urls: seq<string>, img: Node, doc: seq<Node>, calls: seq<string>)
    requires urls != [] && |doc| == |urls| - 1
    requires IsBareImg(img) && NewImagesShape(f, urls[1..], doc, calls)
    ensures NewImagesShape(f, urls, [img] + doc, [f.resolve(urls[0])] + calls)
  {
    var d := [img] + doc;
    var c := [f.resolve(urls[0])] + calls;
    forall i | 0 < i < |urls| ensures IsBareImg(d[i]) && c[i] == f.resolve(urls[i]) {
      assert d[i] == doc[i - 1];
      assert c[i] == calls[i - 1];
    }
  }

  /** Every node the sweep adds is a bare image, and one download is
      asked for per URL, in order. */
  lemma {:induction false} NewImagesFacts<S>(f: Fetcher<S>, st: S, urls: seq<string>)
    requires forall i :: 0 <= i < |urls| ==> urls[i] != []
    ensures var r := NewImages(f, st, urls);
            && (forall i :: 0 <= i < |urls| ==> IsBareImg(r.doc[i]))
            && r.calls == seq(|urls|, i requires 0 <= i < |urls| => f.resolve(urls[i]))
    decreases |urls|
  {
    var r := NewImages(f, st, urls);
    if urls != [] {
      NewImageHead(f, st, urls[0]);
      var o := ProcessImage(f, st, map["src" := urls[0]]);
      var rest := NewImages(f, o.state, urls[1..]);
      NewImagesFacts(f, o.state, urls[1..]);
      NewImagesJoin(f, urls, Element("img", o.attrs, []), rest.doc, rest.calls);
    }
    assert NewImagesShape(f, urls, r.doc, r.calls);
  }

  /** The downloader's state before each of the downloads `calls`, made
      in turn from `st`, and after the last one. */
  function Replay<S>(f: Fetcher<S>, st: S, calls: seq<string>): (r: seq<S>)
    ensures |r| == |calls| + 1 && r[0] == st
    decreases |calls|
  {
    if calls == [] then [st] else [st] + Replay(f, f.fetch(st, calls[0]).1, calls[1..])
  }

  /** The local path when the download succeeded, else the URL itself. */
  function LocalOr(path: Option<string>, url: string): string
  {
    if path.Some? then path.value else url
  }

  /** The image made for one carried URL points at the local copy when
      the download succeeds and at the URL otherwise. */
  lemma NewImageSource<S>(f: Fetcher<S>, st: S, u: string)
    requires u != []
    ensures var o := ProcessImage(f, st, map["src" := u]);
            var fetched := f.fetch(st, f.resolve(u));
            && o.attrs == map["src" := LocalOr(fetched.0, u)]
            && o.state == fetched.1
  {
    var a := map["src" := u];
    assert SourceOf(a) == Some(u);
    var fetched := f.fetch(st, f.resolve(u));
    if fetched.0.Some? {
      assert (a - StaleAttrs)["src" := fetched.0.value] == map["src" := fetched.0.value];
    }
  }

  /** What the images for the URLs `urls` look like after downloads `calls`
      made in turn from `st`. */
  predicate NewImagesRunShape<S>(f: Fetcher<S>, st: S, urls: seq<string>, doc: seq<Node>, calls: seq<string>)
    requires |doc| == |calls| == |urls|
  {
    var states := Replay(f, st, calls);
    forall i :: 0 <= i < |urls| ==>
      doc[i] == Element("img", map["src" := LocalOr(f.fetch(states[i], calls[i]).0, urls[i])], [])
  }

  lemma NewImagesRunJoin<S>(f: Fetcher<S>, st: S, urls: seq<string>, c: string, doc: seq<Node>, calls: seq<string>)
    requires urls != [] && |doc| == |calls| == |urls| - 1
    requires NewImagesRunShape(f, f.fetch(st, c).1, urls[1..], doc, calls)
    ensures NewImagesRunShape(f, st, urls, [Element("img", map["src" := LocalOr(f.fetch(st, c).0, urls[0])], [])] + doc,
                              [c] + calls)
  {
    var d := [Element("img", map["src" := LocalOr(f.fetch(st, c).0, urls[0])], [])] + doc;
    var cs := [c] + calls;
    var states, tail := Replay(f, st, cs), Replay(f, f.fetch(st, c).1, calls);
    assert cs[1..] == calls;
    forall i | 0 < i < |urls|
      ensures d[i] == Element("img", map["src" := LocalOr(f.fetch(states[i], cs[i]).0, urls[i])], [])
    {
      assert d[i] == doc[i - 1] && cs[i] == calls[i - 1] && states[i] == tail[i - 1] && urls[i] == urls[1..][i - 1];
    }
  }

  /** The images the sweep adds, one per URL in order: each points at its
      local copy when its download succeeded and at its URL otherwise,
      and the downloader ends in the state the downloads lead to. */
  lemma {:induction false} NewImagesRun<S>(f: Fetcher<S>, st: S, urls: seq<string>)
    requires forall i :: 0 <= i < |urls| ==> urls[i] != []
    ensures var r := NewImages(f, st, urls);
            && |r.calls| == |urls|
            && r.state == Replay(f, st, r.calls)[|urls|]
            && NewImagesRunShape(f, st, urls, r.doc, r.calls)
    decreases |urls|
  {
    if urls != [] {
      var u, c := urls[0], f.resolve(urls[0]);
      var o := ProcessImage(f, st, map["src" := u]);
      var rest := NewImages(f, o.state, urls[1..]);
      var r := NewImages(f, st, urls);
      assert && o.calls == [c]
             && o.attrs == map["src" := LocalOr(f.fetch(st, c).0, u)]
             && o.state == f.fetch(st, c).1 by {
        NewImageSource(f, st, u);
        NewImageHead(f, st, u);
      }
      NewImagesRun(f, o.state, urls[1..]);
      assert r.doc == [Element("img", o.attrs, [])] + rest.doc;
      assert r.calls == [c] + rest.calls && r.state == rest.state;
      NewImagesRunJoin(f, st, urls, c, rest.doc, rest.calls);
      assert Replay(f, st, r.calls)[|urls|] == r.state by {
        assert r.calls[1..] == rest.calls;
      }
    }
  }

  /** The sweep over every tag of the page, in document order. */
  function Sweep<S>(f: Fetcher<S>, st: S, s: seq<Node>): (r: Pass<S>)
    decreases s, 1
  {
    if s == [] then Pass([], st, [])
    else
      var h := SweepNode(f, st, s[0]);
      var t := Sweep(f, h.state, s[1..]);
      Pass(h.doc + t.doc, t.state, h.calls + t.calls)
  }

  /** A tag first gets its new images, appended after its children and
      downloaded in turn; then its original children are swept. */
  function SweepNode<S>(f: Fetcher<S>, st: S, n: Node): (r: Pass<S>)
    ensures |r.doc| == 1
    decreases n, 0
  {
    match n
    case Element(name, attrs, cs) =>
      var added := NewImages(f, st, CarriedUrls(attrs, AltAttrs));
      var c := Sweep(f, added.state, cs);
      Pass([Element(name, attrs, c.doc + added.doc)], c.state, added.calls + c.calls)
    case other => Pass([other], st, [])
  }

  /** The number of images a node carries for the sweep. */
  function Carried(n: Node): nat
  {
    if n.Element? then |CarriedUrls(n.attrs, AltAttrs)| else 0
  }

  /** What the sweep promises about one swept forest: taking out the bare
      images gives back the forest with its bare images taken out, so
      every tag keeps its attributes and its children; one image is added
      and one download asked for per carried URL. */
  ghost predicate SweepFacts(s: seq<Node>, r: seq<Node>, calls: seq<string>)
  {
    && Prune(r, IsBareImg) == Prune(s, IsBareImg)
    && Count(r, IsImg) == Count(s, IsImg) + Total(s, Carried)
    && |calls| == Total(s, Carried)
  }

  lemma {:induction false} BareImages(doc: seq<Node>)
    requires forall i :: 0 <= i < |doc| ==> IsBareImg(doc[i])
    ensures Prune(doc, IsBareImg) == []
    ensures Count(doc, IsImg) == |doc|
    decreases |doc|
  {
    if doc != [] {
      assert IsBareImg(Head(doc[0]));
      BareImages(doc[1..]);
      assert Total(doc[0].children, Indicator(IsImg)) == 0;
    }
  }

  lemma CarriedOne(n: Node)
    ensures Total([n], Carried) == Carried(n) + (if n.Element? then Total(n.children, Carried) else 0)
  {
    assert [n][0] == n && [n][1..] == [];
  }

  /** A tag whose children were swept into `kids` and that received the
      bare images `added`. */
  lemma SweptElementFacts(name: string, attrs: map<string, string>, cs: seq<Node>,
                          kids: seq<Node>, kidCalls: seq<string>, added: seq<Node>, addedCalls: seq<string>)
    requires SweepFacts(cs, kids, kidCalls)
    requires forall i :: 0 <= i < |added| ==> IsBareImg(added[i])
    requires |added| == |addedCalls| == |CarriedUrls(attrs, AltAttrs)|
    ensures SweepFacts([Element(name, attrs, cs)], [Element(name, attrs, kids + added)], addedCalls + kidCalls)
  {
    var n := Element(name, attrs, cs);
    var m := Element(name, attrs, kids + added);
    BareImages(added);
    CarriedOne(n);
    assert Prune([m], IsBareImg) == Prune([n], IsBareImg) by {
      PruneConcat(kids, added, IsBareImg);
      PruneOne(n, IsBareImg);
      PruneOne(m, IsBareImg);
      assert Head(m) == Head(n);
      assert Prune(kids + added, IsBareImg) == Prune(kids, IsBareImg) + [];
      assert Prune(kids, IsBareImg) + [] == Prune(cs, IsBareImg);
    }
    assert Count([m], IsImg) == Count([n], IsImg) + Total([n], Carried) by {
      CountConcat(kids, added, IsImg);
      CountOne(m, IsImg);
      CountOne(n, IsImg);
    }
  }

  lemma SweepNodeFacts<S>(f: Fetcher<S>, st: S, n: Node)
    requires n.Element? ==>
               var added := NewImages(f, st, CarriedUrls(n.attrs, AltAttrs));
               var c := Sweep(f, added.state, n.children);
               SweepFacts(n.children, c.doc, c.calls)
    ensures var r := SweepNode(f, st, n); SweepFacts([n], r.doc, r.calls)
  {
    match n
    case Element(name, attrs, cs) =>
      var urls := CarriedUrls(attrs, AltAttrs);
      CarriedNonEmpty(attrs, AltAttrs);
      var added := NewImages(f, st, urls);
      NewImagesFacts(f, st, urls);
      var c := Sweep(f, added.state, cs);
      SweptElementFacts(name, attrs, cs, c.doc, c.calls, added.doc, added.calls);
    case _ =>
      CarriedOne(n);
      PruneOne(n, IsBareImg);
      CountOne(n, IsImg);
  }

  lemma SweepJoin(s: seq<Node>, one: seq<Node>, c1: seq<string>, t: seq<Node>, c2: seq<string>)
    requires s != []
    requires SweepFacts([s[0]], one, c1) && SweepFacts(s[1..], t, c2)
    ensures SweepFacts(s, one + t, c1 + c2)
  {
    assert s == [s[0]] + s[1..];
    PruneConcat(one, t, IsBareImg);
    PruneConcat([s[0]], s[1..], IsBareImg);
    CountConcat(one, t, IsImg);
    CountConcat([s[0]], s[1..], IsImg);
    TotalConcat([s[0]], s[1..], Carried);
  }

  /** The sweep only adds bare images: one per absolute URL a tag carries
      in an alternate attribute, each with one download. */
  lemma {:induction false} SweepFactsHold<S>(f: Fetcher<S>, st: S, s: seq<Node>)
    ensures var r := Sweep(f, st, s); SweepFacts(s, r.doc, r.calls)
    decreases s
  {
    if s != [] {
      var n := s[0];
      if n.Element? {
        var added := NewImages(f, st, CarriedUrls(n.attrs, AltAttrs));
        SweepFactsHold(f, added.state, n.children);
      }
      SweepNodeFacts(f, st, n);
      var h := SweepNode(f, st, n);
      SweepFactsHold(f, h.state, s[1..]);
      var t := Sweep(f, h.state, s[1..]);
      SweepJoin(s, h.doc, h.calls, t.doc, t.calls);
    }
  }

  /** The URLs handed to `resolve` for the sweep of a forest: for each tag
      in document order, its carried URLs, then those below it. */
  function SweepRequests(resolve: string -> string, s: seq<Node>): seq<string>
    decreases s, 1
  {
    if s == [] then [] else NodeRequests(resolve, s[0]) + SweepRequests(resolve, s[1..])
  }

  function NodeRequests(resolve: string -> string, n: Node): seq<string>
    decreases n, 0
  {
    match n
    case Element(_, attrs, cs) =>
      var urls := CarriedUrls(attrs, AltAttrs);
      seq(|urls|, i requires 0 <= i < |urls| => resolve(urls[i])) + SweepRequests(resolve, cs)
    case _ => []
  }

  /** `r` is the forest `s` swept: node for node, every tag keeps its name
      and attributes, its own children come first, swept in turn, and
      after them come exactly as many bare images as it carries URLs; a
      string or comment is left as it is. */
  ghost predicate Swept(s: seq<Node>, r: seq<Node>)
    decreases s, 1
  {
    if s == [] then r == [] else r != [] && SweptNode(s[0], r[0]) && Swept(s[1..], r[1..])
  }

  ghost predicate SweptNode(n: Node, m: Node)
    decreases n, 0
  {
    match n
    case Element(name, attrs, cs) =>
      && m.Element? && m.name == name && m.attrs == attrs
      && |m.children| == |cs| + Carried(n)
      && Swept(cs, m.children[..|cs|])
      && forall j :: |cs| <= j < |m.children| ==> IsBareImg(m.children[j])
    case _ => m == n
  }

  /** The sweep of a tag whose children were swept into `kids` and that
      received the bare images `added`. */
  lemma SweptElement(name: string, attrs: map<string, string>, cs: seq<Node>, kids: seq<Node>, added: seq<Node>)
    requires Swept(cs, kids)
    requires |kids| == |cs| && |added| == |CarriedUrls(attrs, AltAttrs)|
    requires forall i :: 0 <= i < |added| ==> IsBareImg(added[i])
    ensures SweptNode(Element(name, attrs, cs), Element(name, attrs, kids + added))
  {
    var ch := kids + added;
    assert ch[..|cs|] == kids;
    forall j | |cs| <= j < |ch| ensures IsBareImg(ch[j]) {
      assert ch[j] == added[j - |cs|];
    }
  }

  /** Where the sweep puts things and what it asks for: each tag gets its
      new images after its own children, nothing else moves or changes
      (bare images already on the page included), and the downloads are
      asked for tag by tag in document order. */
  lemma {:induction false} SweepShape<S>(f: Fetcher<S>, st: S, s: seq<Node>)
    ensures var r := Sweep(f, st, s);
            Swept(s, r.doc) && r.calls == SweepRequests(f.resolve, s)
    decreases s
  {
    if s != [] {
      var n := s[0];
      var h := SweepNode(f, st, n);
      if n.Element? {
        var urls := CarriedUrls(n.attrs, AltAttrs);
        var added := NewImages(f, st, urls);
        SweepShape(f, added.state, n.children);
        CarriedNonEmpty(n.attrs, AltAttrs);
        NewImagesFacts(f, st, urls);
        var c := Sweep(f, added.state, n.children);
        SweptLength(n.children, c.doc);
        SweptElement(n.name, n.attrs, n.children, c.doc, added.doc);
      }
      SweepShape(f, h.state, s[1..]);
      var t := Sweep(f, h.state, s[1..]);
      assert (h.doc + t.doc)[0] == h.doc[0] && (h.doc + t.doc)[1..] == t.doc;
    }
  }

  /** A swept forest has as many nodes as the forest. */
  lemma {:induction false} SweptLength(s: seq<Node>, r: seq<Node>)
    requires Swept(s, r)
    ensures |r| == |s|
    decreases |s|
  {
    if s != [] {
      SweptLength(s[1..], r[1..]);
    }
  }

  // ---------------------------------------------------------------------
  // The downloader's state across the passes.
  // ---------------------------------------------------------------------

  /** `R` is a preorder that every download respects. */
  ghost predicate Respects<S(!new)>(f: Fetcher<S>, R: (S, S) -> bool)
  {
    && (forall a: S :: R(a, a))
    && (forall a: S, b: S, c: S :: R(a, b) && R(b, c) ==> R(a, c))
    && (forall a: S, url: string :: R(a, f.fetch(a, url).1))
  }

  lemma ProcessImageRespects<S(!new)>(f: Fetcher<S>, R: (S, S) -> bool, st: S, attrs: map<string, string>)
    requires Respects(f, R)
    ensures R(st, ProcessImage(f, st, attrs).state)
  {
    if SourceOf(attrs).Some? {
      assert R(st, f.fetch(st, f.resolve(SourceOf(attrs).value)).1);
    }
  }

  /** Whatever every download preserves, the main pass preserves. */
  lemma {:induction false} RewriteRespects<S(!new)>(f: Fetcher<S>, R: (S, S) -> bool, st: S, s: seq<Node>)
    requires Respects(f, R)
    ensures R(st, RewriteImages(f, st, s).state)
    decreases s
  {
    if s != [] {
      var h := RewriteNode(f, st, s[0]);
      RewriteRespects(f, R, h.state, s[1..]);
      match s[0]
      case Element(name, attrs, cs) =>
        var o := if name == "img" then ProcessImage(f, st, attrs) else Outcome(attrs, st, []);
        ProcessImageRespects(f, R, st, attrs);
        RewriteRespects(f, R, o.state, cs);
      case _ =>
    }
  }

  lemma {:induction false} NewImagesRespects<S(!new)>(f: Fetcher<S>, R: (S, S) -> bool, st: S, urls: seq<string>)
    requires Respects(f, R)
    ensures R(st, NewImages(f, st, urls).state)
    decreases |urls|
  {
    if urls != [] {
      var o := ProcessImage(f, st, map["src" := urls[0]]);
      ProcessImageRespects(f, R, st, map["src" := urls[0]]);
      NewImagesRespects(f, R, o.state, urls[1..]);
    }
  }

  /** Whatever every download preserves, the sweep preserves. */
  lemma {:induction false} SweepRespects<S(!new)>(f: Fetcher<S>, R: (S, S) -> bool, st: S, s: seq<Node>)
    requires Respects(f, R)
    ensures R(st, Sweep(f, st, s).state)
    decreases s
  {
    if s != [] {
      var h := SweepNode(f, st, s[0]);
      SweepRespects(f, R, h.state, s[1..]);
      match s[0]
      case Element(name, attrs, cs) =>
        var added := NewImages(f, st, CarriedUrls(attrs, AltAttrs));
        NewImagesRespects(f, R, st, CarriedUrls(attrs, AltAttrs));
        SweepRespects(f, R, added.state, cs);
      case _ =>
    }
  }
}
