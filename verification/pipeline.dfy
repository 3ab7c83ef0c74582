/**
  `process_html` and the tree work of `convert`, put together: the page
  is cleaned, its images are downloaded and rewritten, the sweep adds the
  images hidden in alternate attributes, and the spacing pass prepares
  the tree for the Markdown formatter. Downloads go through
  `download_image`, each against the replies the network gives it.
 */
module Pipeline {
  import opened Options
  import opened Dom
  import Sanitizer
  import Spacing
  import Download
  import ImageRewrite
  import Reparse
  import PyStr

  /** The replies to the attempts of one download. */
  type Script = s: seq<Download.Reply> | |s| == Download.MaxRetries witness [Download.Timeout, Download.Timeout, Download.Timeout]

  /** The downloader's state: the image counter and the existing files,
      and how many downloads were asked for so far. */
  datatype Session = Session(store: Download.Store, served: nat)

  /** `download_image` as the image passes call it; the `k`-th download
      of `url` meets the replies `net(k, url)`. */
  function Downloader(env: Download.Env, net: (nat, string) -> Script): ImageRewrite.Fetcher<Session>
  {
    ImageRewrite.Fetcher(env.resolve, (ss: Session, url: string) =>
      var r := Download.DownloadImage(env, ss.store, url, net(ss.served, url));
      (r.path, Session(r.store, ss.served + 1)))
  }

  /** The counter never goes back, no file disappears, and the
      downloads asked for only add up. */
  predicate Grows(a: Session, b: Session)
  {
    a.store.count <= b.store.count && a.store.files <= b.store.files && a.served <= b.served
  }

  lemma DownloaderGrows(env: Download.Env, net: (nat, string) -> Script)
    ensures ImageRewrite.Respects(Downloader(env, net), Grows)
  {
    var f := Downloader(env, net);
    forall a: Session, url: string
      ensures Grows(a, f.fetch(a, url).1)
    {
      Download.DownloadFacts(env, a.store, url, net(a.served, url));
    }
  }

  /** `process_html` on a parsed page. */
  function ProcessHtml(env: Download.Env, net: (nat, string) -> Script, ss: Session, doc: seq<Node>): ImageRewrite.Pass<Session>
  {
    var f := Downloader(env, net);
    var cleaned := Sanitizer.CleanHtml(doc);
    var main := ImageRewrite.RewriteImages(f, ss, cleaned);
    var swept := ImageRewrite.Sweep(f, main.state, main.doc);
    ImageRewrite.Pass(swept.doc, swept.state, main.calls + swept.calls)
  }

  /** An element and a second one of the same name over kept children,
      whatever their attributes. */
  lemma KeepsNode(x: Node, y: Node)
    requires x.Element? && y.Element? && x.name == y.name
    requires Sanitizer.Keeps(x.children, y.children)
    ensures Sanitizer.Keeps([x], [y])
  {
    AllOne(x, Not(Sanitizer.Removable));
    AllOne(y, Not(Sanitizer.Removable));
    assert Not(Sanitizer.Removable)(x) == !Sanitizer.Removable(x) == !Sanitizer.Removable(y) == Not(Sanitizer.Removable)(y);
    StrippedTextOne(x);
    StrippedTextOne(y);
  }

  /** Forests that differ only in the attributes of images are equally
      clean and show the same text. */
  lemma {:induction false} SkeletonKeeps(a: seq<Node>, b: seq<Node>)
    requires ImageRewrite.Skeleton(a) == ImageRewrite.Skeleton(b)
    ensures Sanitizer.Keeps(a, b)
    decreases a
  {
    if a != [] {
      assert ImageRewrite.Skeleton(a)[0] == ImageRewrite.Skeleton(b)[0];
      assert ImageRewrite.Skeleton(a)[1..] == ImageRewrite.Skeleton(a[1..]);
      assert ImageRewrite.Skeleton(b)[1..] == ImageRewrite.Skeleton(b[1..]);
      SkeletonKeeps(a[1..], b[1..]);
      if a[0].Element? {
        SkeletonKeeps(a[0].children, b[0].children);
        KeepsNode(a[0], b[0]);
      } else {
        assert a[0] == b[0];
      }
      Sanitizer.KeepsConcat([a[0]], [b[0]], a[1..], b[1..]);
      assert a == [a[0]] + a[1..] && b == [b[0]] + b[1..];
    }
  }

  /** Bare images are clean and show no text. */
  lemma {:induction false} BareImagesBlank(doc: seq<Node>)
    requires forall i :: 0 <= i < |doc| ==> ImageRewrite.IsBareImg(doc[i])
    ensures Sanitizer.ContentOnly(doc) && StrippedText(doc) == []
    decreases |doc|
  {
    if doc != [] {
      var n := doc[0];
      BareImagesBlank(doc[1..]);
      assert ImageRewrite.IsBareImg(n) && n.name == "img" && n.children == [];
      assert Not(Sanitizer.Removable)(n);
      AllOne(n, Not(Sanitizer.Removable));
      StrippedTextOne(n);
      assert doc == [n] + doc[1..];
      AllConcat([n], doc[1..], Not(Sanitizer.Removable));
      StrippedTextConcat([n], doc[1..]);
    }
  }

  lemma KeepsAppendBlank(x: seq<Node>, added: seq<Node>)
    requires Sanitizer.ContentOnly(added) && StrippedText(added) == []
    ensures Sanitizer.Keeps(x, x + added)
  {
    AllConcat(x, added, Not(Sanitizer.Removable));
    StrippedTextConcat(x, added);
    assert StrippedText(x) + [] == StrippedText(x);
  }

  lemma SweepNodeKeeps(f: ImageRewrite.Fetcher<Session>, st: Session, n: Node)
    requires n.Element? ==>
               var added := ImageRewrite.NewImages(f, st, ImageRewrite.CarriedUrls(n.attrs, ImageRewrite.AltAttrs));
               Sanitizer.Keeps(n.children, ImageRewrite.Sweep(f, added.state, n.children).doc)
    ensures Sanitizer.Keeps([n], ImageRewrite.SweepNode(f, st, n).doc)
  {
    match n
    case Element(name, attrs, cs) =>
      var urls := ImageRewrite.CarriedUrls(attrs, ImageRewrite.AltAttrs);
      ImageRewrite.CarriedNonEmpty(attrs, ImageRewrite.AltAttrs);
      var added := ImageRewrite.NewImages(f, st, urls);
      ImageRewrite.NewImagesFacts(f, st, urls);
      BareImagesBlank(added.doc);
      var c := ImageRewrite.Sweep(f, added.state, cs);
      KeepsAppendBlank(c.doc, added.doc);
      Sanitizer.KeepsTrans(cs, c.doc, c.doc + added.doc);
      Sanitizer.KeepsElement(name, attrs, cs, c.doc + added.doc);
    case _ =>
  }

  /** The sweep keeps the page clean and its text as it was. */
  lemma {:induction false} SweepKeeps(f: ImageRewrite.Fetcher<Session>, st: Session, s: seq<Node>)
    ensures Sanitizer.Keeps(s, ImageRewrite.Sweep(f, st, s).doc)
    decreases s
  {
    if s != [] {
      var n := s[0];
      if n.Element? {
        var added := ImageRewrite.NewImages(f, st, ImageRewrite.CarriedUrls(n.attrs, ImageRewrite.AltAttrs));
        SweepKeeps(f, added.state, n.children);
      }
      SweepNodeKeeps(f, st, n);
      var h := ImageRewrite.SweepNode(f, st, n);
      var t := ImageRewrite.Sweep(f, h.state, s[1..]);
      SweepKeeps(f, h.state, s[1..]);
      Sanitizer.KeepsConcat([n], h.doc, s[1..], t.doc);
      assert s == [n] + s[1..];
    }
  }

  /** `process_html` leaves the page as clean as `clean_html` made it and
      with the same visible text; the image counter and the existing
      files only grow. */
  lemma ProcessHtmlFacts(env: Download.Env, net: (nat, string) -> Script, ss: Session, doc: seq<Node>)
    ensures var r := ProcessHtml(env, net, ss, doc);
            && Sanitizer.ContentOnly(r.doc)
            && StrippedText(r.doc) == StrippedText(Sanitizer.RemoveNonContent(doc))
            && Grows(ss, r.state)
  {
    var f := Downloader(env, net);
    var cleaned := Sanitizer.CleanHtml(doc);
    var main := ImageRewrite.RewriteImages(f, ss, cleaned);
    var swept := ImageRewrite.Sweep(f, main.state, main.doc);
    ImageRewrite.RewriteImagesFacts(f, ss, cleaned);
    SkeletonKeeps(cleaned, main.doc);
    SweepKeeps(f, main.state, main.doc);
    Sanitizer.KeepsTrans(cleaned, main.doc, swept.doc);
    DownloaderGrows(env, net);
    ImageRewrite.RewriteRespects(f, Grows, ss, cleaned);
    ImageRewrite.SweepRespects(f, Grows, main.state, main.doc);
  }

  /** The tree `convert` hands to the Markdown formatter: the string
      `process_html` returns, parsed again, then spaced. */
  function Convert(env: Download.Env, net: (nat, string) -> Script, ss: Session, doc: seq<Node>): (r: seq<Node>)
  {
    Spacing.SpaceHeadings(Reparse.ReadBack(ProcessHtml(env, net, ss, doc).doc))
  }

  /** What the formatter receives: no heading touches a word string and no
      image sits right before a heading; it shows the stripped text of the
      re-parsed page. Re-parsing joins neighbouring strings, which keeps the
      characters of the processed page in order, and then collapses blank
      strings, which keeps the stripped text. The stripped text of the
      processed page is that of the page without its scripts, styles,
      links, metas and comments. */
  lemma ConvertFacts(env: Download.Env, net: (nat, string) -> Script, ss: Session, doc: seq<Node>)
    ensures var p := ProcessHtml(env, net, ss, doc).doc;
            var m := Reparse.MergeStrings(p);
            var c := Reparse.ReadBack(p);
            var r := Convert(env, net, ss, doc);
            && Pairs(r, Spacing.Apart)
            && Spacing.ImgClear(r)
            && StrippedText(r) == StrippedText(c)
            && StrippedText(c) == StrippedText(m)
            && StrippedText(r) == StrippedText(m)
            && Reparse.RawText(m) == Reparse.RawText(p)
            && StrippedText(p) == StrippedText(Sanitizer.RemoveNonContent(doc))
  {
    var p := ProcessHtml(env, net, ss, doc).doc;
    ProcessHtmlFacts(env, net, ss, doc);
    AllWeaken(p, Not(Sanitizer.Removable), Not(Spacing.IsComment));
    ReparseNoComment(p);
    Reparse.ReadBackFacts(p);
  }

  /** The re-parse brings back no comment into a page without one. */
  lemma ReparseNoComment(p: seq<Node>)
    requires All(p, Not(Spacing.IsComment))
    ensures All(Reparse.MergeStrings(p), Not(Spacing.IsComment))
    ensures All(Reparse.ReadBack(p), Not(Spacing.IsComment))
  {
    forall t: string ensures Not(Spacing.IsComment)(Text(t)) {
      assert !Spacing.IsComment(Text(t));
    }
    forall n: Node ensures Not(Spacing.IsComment)(Head(n)) == Not(Spacing.IsComment)(n) {
      assert Spacing.IsComment(Head(n)) == Spacing.IsComment(n);
    }
    Reparse.MergeAll(p, Not(Spacing.IsComment));
    Reparse.ReadBackAll(p, Not(Spacing.IsComment));
  }

  /** A word, a gap string and a tag are read back as one string and the tag. */
  lemma ReparseJoinsGap(h: Node)
    requires h.Element? && h.children == []
    ensures Reparse.MergeStrings([Text("a"), Sanitizer.Gap, h]) == [Text("a\n\n"), h]
  {
    Reparse.BareTag(h, false);
    Reparse.MergeCons(Sanitizer.Gap, [h]);
    assert [Sanitizer.Gap] + [h] == [Sanitizer.Gap, h];
    Reparse.MergeCons(Text("a"), [Sanitizer.Gap, h]);
    assert [Text("a")] + [Sanitizer.Gap, h] == [Text("a"), Sanitizer.Gap, h];
    assert "a" + "\n\n" == "a\n\n";
  }

  /** The word string joined with the gap is not blank, so it is kept. */
  lemma ReadBackWordGap(h: Node)
    requires h.Element? && h.children == []
    ensures Reparse.ReadBack([Text("a"), Sanitizer.Gap, h]) == [Text("a\n\n"), h]
  {
    ReparseJoinsGap(h);
    assert !Reparse.IsAsciiBlank("a\n\n") by {
      assert !Reparse.IsAsciiSpace("a\n\n"[0]);
    }
    Reparse.BareTag(h, false);
    Reparse.CollapseCons(Text("a\n\n"), [h], false);
    assert [Text("a\n\n")] + [h] == [Text("a\n\n"), h];
  }

  lemma StripWordGap()
    ensures PyStr.Strip("a\n\n") == "a"
  {
    assert PyStr.StripLeft("a\n\n") == "a\n\n";
    assert "a\n\n"[..2] == "a\n" && "a\n"[..1] == "a";
    assert PyStr.StripRight("a") == "a";
    assert PyStr.StripRight("a\n") == "a";
  }

  /** The heading loop steps over the gap, but splits the joined string. */
  lemma SplitWordGap(h: Node)
    requires IsHeading(h) && h.children == []
    ensures Spacing.SplitSiblings([Text("a"), Sanitizer.Gap, h]) == [Text("a"), Sanitizer.Gap, h]
    ensures Spacing.SplitSiblings([Text("a\n\n"), h]) == [Element("p", map[], [Text("a")]), Br, h]
  {
    var tail := [Sanitizer.Gap, h];
    assert Spacing.SplitSiblings([h]) == [h] by {
      assert [h][1..] == [];
      assert Spacing.SplitNode(h) == h;
    }
    assert !Spacing.IsWordString(Sanitizer.Gap) by {
      PyStr.StripEmptyIffBlank("\n\n");
    }
    assert Spacing.SplitSiblings(tail) == tail by {
      assert tail[0] == Sanitizer.Gap && tail[1..] == [h];
    }
    assert Spacing.SplitSiblings([Text("a"), Sanitizer.Gap, h]) == [Text("a")] + tail by {
      var page := [Text("a"), Sanitizer.Gap, h];
      assert page[0] == Text("a") && page[1] == Sanitizer.Gap && page[1..] == tail;
    }
    StripWordGap();
    var joined := [Text("a\n\n"), h];
    assert joined[0] == Text("a\n\n") && joined[1] == h && joined[1..] == [h];
    assert Spacing.SplitSiblings(joined) == [Spacing.Para(Text("a\n\n"))] + ([Br] + [h]);
  }

  /** The re-parse is what lets the heading loop act on a cleaned page:
      `clean_html` leaves a gap string between a word and a heading, which
      the loop steps over as blank; read back, the two strings are one,
      and the loop turns it into a paragraph. */
  lemma ReparseEnablesSplit()
    ensures var h := Element("h2", map[], []);
            var page := [Text("a"), Sanitizer.Gap, h];
            && Spacing.SplitSiblings(page) == page
            && Spacing.SplitSiblings(Reparse.MergeStrings(page))
               == [Element("p", map[], [Text("a")]), Br, h]
            && Reparse.ReadBack(page) == Reparse.MergeStrings(page)
  {
    var h := Element("h2", map[], []);
    assert IsHeading(h) by {
      assert "h2" in HeadingNames;
    }
    ReparseJoinsGap(h);
    ReadBackWordGap(h);
    SplitWordGap(h);
  }

  /** The gap string is ASCII white space holding a newline. */
  lemma GapCollapses()
    ensures Reparse.Collapse(Sanitizer.Gap.text, false) == "\n"
  {
    assert Reparse.IsAsciiBlank("\n\n") by {
      assert Reparse.IsAsciiSpace("\n\n"[0]) && Reparse.IsAsciiSpace("\n\n"[1]);
    }
    assert '\n' in "\n\n" by {
      assert "\n\n"[0] == '\n';
    }
  }

  /** Between two tags with no children, the gap is read back as one
      newline. */
  lemma ReadBackTagGapTag(d: Node, h: Node)
    requires d.Element? && d.children == [] && h.Element? && h.children == []
    ensures Reparse.ReadBack([d, Sanitizer.Gap, h]) == [d, Text("\n"), h]
  {
    var tail := [Sanitizer.Gap, h];
    Reparse.BareTag(h, false);
    Reparse.BareTag(d, false);
    Reparse.MergeCons(Sanitizer.Gap, [h]);
    assert [Sanitizer.Gap] + [h] == tail;
    Reparse.MergeCons(d, tail);
    assert [d] + tail == [d, Sanitizer.Gap, h];
    GapCollapses();
    Reparse.CollapseCons(Sanitizer.Gap, [h], false);
    Reparse.CollapseCons(d, tail, false);
    assert [d] + ([Text("\n")] + [h]) == [d, Text("\n"), h];
  }

  /** Inside a tag that keeps white space, the gap is read back as written. */
  lemma ReadBackKeptGap(n: Node)
    requires n.Element? && Reparse.KeepsSpace(n.name) && n.children == [Sanitizer.Gap]
    ensures Reparse.ReadBack([n]) == [n]
  {
    Reparse.MergeCons(Sanitizer.Gap, []);
    assert [Sanitizer.Gap] + [] == [Sanitizer.Gap];
    assert Reparse.MergeNode(n) == n;
    Reparse.MergeCons(n, []);
    assert [n] + [] == [n];
    Reparse.CollapseKept(n.children);
    Reparse.CollapseCons(n, [], false);
  }

  /** A gap string that `clean_html` leaves between two tags is read back
      as one newline; inside `pre` it is read back as written. */
  lemma ReparseCollapsesGap()
    ensures var d := Element("div", map[], []);
            var h := Element("h2", map[], []);
            && Reparse.ReadBack([d, Sanitizer.Gap, h]) == [d, Text("\n"), h]
            && Reparse.ReadBack([Element("pre", map[], [Sanitizer.Gap])])
               == [Element("pre", map[], [Sanitizer.Gap])]
  {
    ReadBackTagGapTag(Element("div", map[], []), Element("h2", map[], []));
    ReadBackKeptGap(Element("pre", map[], [Sanitizer.Gap]));
  }
}
