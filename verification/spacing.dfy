/**
  The two passes `Web2Markdown.convert` runs over the re-parsed page just
  before handing it to markdownify: text standing right next to a heading
  is split off into its own paragraph, and an image followed by a heading
  gets a `<br>` between them.
 */
module Spacing {
  import opened Options
  import opened PyStr
  import opened Dom

  // ---------------------------------------------------------------------
  // Headings: a neighbouring string with visible text becomes a <p>.
  // ---------------------------------------------------------------------

  /** A string the heading pass acts on: a string whose stripped text is
      not empty (an empty string is falsy and strips to nothing anyway). */
  predicate IsWordString(n: Node)
  {
    IsString(n) && Strip(n.text) != []
  }

  /** The `<p>` that replaces a string: it holds the stripped text. */
  function Para(n: Node): (r: Node)
    requires IsString(n)
  {
    Element("p", map[], [Text(Strip(n.text))])
  }

  /** The heading loop over one list of siblings. Headings are visited in
      document order; a heading turns a word string before it into
      `<p>`, `<br>` and one after it into `<br>`, `<p>`. A string taken
      by the heading before it is a `<p>` by the time the next heading
      looks at it, so the walk consumes it. */
  function SplitSiblings(s: seq<Node>): seq<Node>
    decreases s, 1
  {
    if s == [] then []
    else if |s| > 1 && IsWordString(s[0]) && IsHeading(s[1]) then
      [Para(s[0])] + ([Br] + SplitSiblings(s[1..]))
    else if |s| > 1 && IsHeading(s[0]) && IsWordString(s[1]) then
      [SplitNode(s[0])] + ([Br] + ([Para(s[1])] + SplitSiblings(s[2..])))
    else
      [SplitNode(s[0])] + SplitSiblings(s[1..])
  }

  function SplitNode(n: Node): (r: Node)
    ensures Head(r) == Head(n)
    decreases n, 0
  {
    match n
    case Element(nm, a, cs) => Element(nm, a, SplitSiblings(cs))
    case other => other
  }

  /** A heading and a word string are never adjacent siblings. */
  predicate Apart(a: Node, b: Node)
  {
    && !(IsWordString(a) && IsHeading(b))
    && !(IsHeading(a) && IsWordString(b))
  }

  predicate IsComment(n: Node)
  {
    n.Comment?
  }

  /** The heading loop at a word string followed by a heading. */
  predicate WordThenHeading(s: seq<Node>)
  {
    |s| > 1 && IsWordString(s[0]) && IsHeading(s[1])
  }

  /** The heading loop at a heading followed by a word string it takes. */
  predicate HeadingThenWord(s: seq<Node>)
  {
    !WordThenHeading(s) && |s| > 1 && IsHeading(s[0]) && IsWordString(s[1])
  }

  lemma SplitUnfoldWord(s: seq<Node>)
    requires WordThenHeading(s)
    ensures SplitSiblings(s) == [Para(s[0])] + ([Br] + SplitSiblings(s[1..]))
  {
  }

  lemma SplitUnfoldHeading(s: seq<Node>)
    requires HeadingThenWord(s)
    ensures SplitSiblings(s) == [SplitNode(s[0])] + ([Br] + ([Para(s[1])] + SplitSiblings(s[2..])))
  {
  }

  lemma SplitUnfoldPlain(s: seq<Node>)
    requires s != [] && !WordThenHeading(s) && !HeadingThenWord(s)
    ensures SplitSiblings(s) == [SplitNode(s[0])] + SplitSiblings(s[1..])
  {
  }

  /** The first node the heading loop emits. */
  lemma SplitFirst(s: seq<Node>)
    requires s != []
    ensures SplitSiblings(s) != []
    ensures SplitSiblings(s)[0] == if WordThenHeading(s) then Para(s[0]) else SplitNode(s[0])
  {
    if WordThenHeading(s) {
      SplitUnfoldWord(s);
    } else if HeadingThenWord(s) {
      SplitUnfoldHeading(s);
    } else {
      SplitUnfoldPlain(s);
    }
  }

  /** Whether two nodes are apart shows on their heads. */
  lemma ApartByHead(a: Node, b: Node)
    ensures Apart(a, b) == Apart(Head(a), Head(b))
  {
  }

  /** A `<p>` or a `<br>` is apart from anything. */
  lemma ApartFromLayout(a: Node, b: Node)
    requires IsNamed(a, "p") || IsNamed(a, "br") || IsNamed(b, "p") || IsNamed(b, "br")
    ensures Apart(a, b)
  {
  }

  /** After the heading loop no word string touches a heading. */
  lemma {:induction false} SplitApart(s: seq<Node>)
    ensures Pairs(SplitSiblings(s), Apart)
    decreases s
  {
    if s != [] {
      if s[0].Element? {
        SplitApart(s[0].children);
      }
      if WordThenHeading(s) {
        SplitApart(s[1..]);
        SplitApartWord(s);
      } else if HeadingThenWord(s) {
        SplitApart(s[2..]);
        SplitApartHeading(s);
      } else {
        SplitApart(s[1..]);
        SplitApartPlain(s);
      }
    }
  }

  lemma SplitApartWord(s: seq<Node>)
    requires WordThenHeading(s) && Pairs(SplitSiblings(s[1..]), Apart)
    ensures Pairs(SplitSiblings(s), Apart)
  {
    var rest := SplitSiblings(s[1..]);
    SplitUnfoldWord(s);
    PairsOne(Br, Apart);
    PairsOne(Para(s[0]), Apart);
    PairsOne(Text(Strip(s[0].text)), Apart);
    if rest != [] {
      ApartFromLayout(Br, rest[0]);
    }
    PairsConcat([Br], rest, Apart);
    ApartFromLayout(Para(s[0]), Br);
    PairsConcat([Para(s[0])], [Br] + rest, Apart);
  }

  lemma SplitApartHeading(s: seq<Node>)
    requires HeadingThenWord(s) && Pairs(SplitSiblings(s[2..]), Apart)
    requires s[0].Element? ==> Pairs(SplitSiblings(s[0].children), Apart)
    ensures Pairs(SplitSiblings(s), Apart)
  {
    var rest := SplitSiblings(s[2..]);
    var p := Para(s[1]);
    SplitUnfoldHeading(s);
    PairsOne(SplitNode(s[0]), Apart);
    PairsOne(Br, Apart);
    PairsOne(p, Apart);
    PairsOne(Text(Strip(s[1].text)), Apart);
    if rest != [] {
      ApartFromLayout(p, rest[0]);
    }
    PairsConcat([p], rest, Apart);
    ApartFromLayout(Br, p);
    PairsConcat([Br], [p] + rest, Apart);
    ApartFromLayout(SplitNode(s[0]), Br);
    PairsConcat([SplitNode(s[0])], [Br] + ([p] + rest), Apart);
  }

  lemma SplitApartPlain(s: seq<Node>)
    requires s != [] && !WordThenHeading(s) && !HeadingThenWord(s)
    requires Pairs(SplitSiblings(s[1..]), Apart)
    requires s[0].Element? ==> Pairs(SplitSiblings(s[0].children), Apart)
    ensures Pairs(SplitSiblings(s), Apart)
  {
    var rest := SplitSiblings(s[1..]);
    SplitUnfoldPlain(s);
    PairsOne(SplitNode(s[0]), Apart);
    if |s| > 1 {
      SplitFirst(s[1..]);
      if WordThenHeading(s[1..]) {
        ApartFromLayout(SplitNode(s[0]), rest[0]);
      } else {
        ApartByHead(SplitNode(s[0]), rest[0]);
        ApartByHead(s[0], s[1]);
      }
    }
    PairsConcat([SplitNode(s[0])], rest, Apart);
  }

  /** Where no word string touches a heading, the heading loop changes nothing. */
  lemma {:induction false} SplitIdentity(s: seq<Node>)
    requires Pairs(s, Apart)
    ensures SplitSiblings(s) == s
    decreases s
  {
    if s != [] {
      assert !WordThenHeading(s) && !HeadingThenWord(s);
      SplitUnfoldPlain(s);
      SplitIdentity(s[1..]);
      if s[0].Element? {
        SplitIdentity(s[0].children);
      }
      assert [s[0]] + s[1..] == s;
    }
  }

  /** Running the heading loop twice is running it once. */
  lemma SplitIdempotent(s: seq<Node>)
    ensures SplitSiblings(SplitSiblings(s)) == SplitSiblings(s)
  {
    SplitApart(s);
    SplitIdentity(SplitSiblings(s));
  }

  /** A `<p>` made from a string shows the string's visible text. */
  lemma ParaText(n: Node)
    requires n.Text?
    ensures StrippedText([Para(n)]) == StrippedText([n])
  {
    StrippedTextOne(Para(n));
    StrippedTextOne(Text(Strip(n.text)));
    StrippedTextOne(n);
    StripIdempotent(n.text);
  }

  /** On a page without comments (the cleaner removed them) the heading
      loop keeps the visible text: a `<p>` shows the stripped string it
      replaces and a `<br>` shows nothing. */
  lemma {:induction false} SplitKeepsText(s: seq<Node>)
    requires All(s, Not(IsComment))
    ensures StrippedText(SplitSiblings(s)) == StrippedText(s)
    decreases s
  {
    if s != [] {
      assert Not(IsComment)(s[0]);
      if s[0].Element? {
        SplitKeepsText(s[0].children);
      }
      if WordThenHeading(s) {
        SplitKeepsText(s[1..]);
        SplitTextWord(s);
      } else if HeadingThenWord(s) {
        assert All(s[1..], Not(IsComment));
        assert Not(IsComment)(s[1]);
        assert s[1..][1..] == s[2..];
        SplitKeepsText(s[2..]);
        SplitKeepsText(s[0].children);
        assert !IsComment(s[1]) && IsWordString(s[1]);
        assert s[1].Text?;
        assert StrippedText(SplitSiblings(s[2..])) == StrippedText(s[2..]);
        SplitTextHeading(s);
      } else {
        SplitKeepsText(s[1..]);
        SplitTextPlain(s);
      }
    }
  }

  /** The visible text of a list: its first node's, then the rest's. */
  lemma TextCons(s: seq<Node>)
    requires s != []
    ensures StrippedText(s) == StrippedText([s[0]]) + StrippedText(s[1..])
  {
    assert [s[0]] + s[1..] == s;
    StrippedTextConcat([s[0]], s[1..]);
  }

  lemma SplitTextWord(s: seq<Node>)
    requires WordThenHeading(s) && s[0].Text?
    requires StrippedText(SplitSiblings(s[1..])) == StrippedText(s[1..])
    ensures StrippedText(SplitSiblings(s)) == StrippedText(s)
  {
    var rest := SplitSiblings(s[1..]);
    SplitUnfoldWord(s);
    TextCons(s);
    ParaText(s[0]);
    BrFrontText(rest);
    StrippedTextConcat([Para(s[0])], [Br] + rest);
  }

  lemma SplitTextHeading(s: seq<Node>)
    requires HeadingThenWord(s) && s[1].Text?
    requires StrippedText(SplitSiblings(s[2..])) == StrippedText(s[2..])
    requires StrippedText(SplitSiblings(s[0].children)) == StrippedText(s[0].children)
    ensures StrippedText(SplitSiblings(s)) == StrippedText(s)
  {
    var rest := SplitSiblings(s[2..]);
    var p := Para(s[1]);
    SplitUnfoldHeading(s);
    TextCons(s);
    TextCons(s[1..]);
    assert s[1..][1..] == s[2..];
    ParaText(s[1]);
    SplitNodeText(s[0]);
    BrFrontText([p] + rest);
    StrippedTextConcat([p], rest);
    StrippedTextConcat([SplitNode(s[0])], [Br] + ([p] + rest));
  }

  /** A `<br>` in front adds no text. */
  lemma BrFrontText(t: seq<Node>)
    ensures StrippedText([Br] + t) == StrippedText(t)
  {
    StrippedTextOne(Br);
    StrippedTextConcat([Br], t);
  }

  /** The heading loop inside one node keeps its text. */
  lemma SplitNodeText(n: Node)
    requires n.Element? ==> StrippedText(SplitSiblings(n.children)) == StrippedText(n.children)
    ensures StrippedText([SplitNode(n)]) == StrippedText([n])
  {
    StrippedTextOne(n);
    StrippedTextOne(SplitNode(n));
  }

  lemma SplitTextPlain(s: seq<Node>)
    requires s != [] && !WordThenHeading(s) && !HeadingThenWord(s)
    requires StrippedText(SplitSiblings(s[1..])) == StrippedText(s[1..])
    requires s[0].Element? ==> StrippedText(SplitSiblings(s[0].children)) == StrippedText(s[0].children)
    ensures StrippedText(SplitSiblings(s)) == StrippedText(s)
  {
    SplitUnfoldPlain(s);
    TextCons(s);
    SplitNodeText(s[0]);
    StrippedTextConcat([SplitNode(s[0])], SplitSiblings(s[1..]));
  }

  /** The heading loop adds no heading and drops none. */
  lemma {:induction false} SplitHeadingCount(s: seq<Node>)
    ensures Count(SplitSiblings(s), IsHeading) == Count(s, IsHeading)
    decreases s
  {
    if s != [] {
      if s[0].Element? {
        SplitHeadingCount(s[0].children);
      }
      if WordThenHeading(s) {
        SplitHeadingCount(s[1..]);
        SplitCountWord(s);
      } else if HeadingThenWord(s) {
        SplitHeadingCount(s[2..]);
        SplitCountHeading(s);
      } else {
        SplitHeadingCount(s[1..]);
        SplitCountPlain(s);
      }
    }
  }

  /** Neither a string nor the `<p>` made from it is or holds a heading. */
  lemma NoHeadingIn(n: Node)
    requires IsString(n)
    ensures Count([n], IsHeading) == 0 && Count([Para(n)], IsHeading) == 0
  {
    CountOne(n, IsHeading);
    CountOne(Para(n), IsHeading);
    CountOne(Text(Strip(n.text)), IsHeading);
    CountOne(Br, IsHeading);
  }

  lemma SplitCountWord(s: seq<Node>)
    requires WordThenHeading(s)
    requires Count(SplitSiblings(s[1..]), IsHeading) == Count(s[1..], IsHeading)
    ensures Count(SplitSiblings(s), IsHeading) == Count(s, IsHeading)
  {
    SplitUnfoldWord(s);
    CountCons(s, IsHeading);
    NoHeadingIn(s[0]);
    CountOne(Br, IsHeading);
    CountBlock(Para(s[0]), [Br], SplitSiblings(s[1..]), IsHeading);
  }

  lemma SplitCountHeading(s: seq<Node>)
    requires HeadingThenWord(s)
    requires Count(SplitSiblings(s[2..]), IsHeading) == Count(s[2..], IsHeading)
    requires Count(SplitSiblings(s[0].children), IsHeading) == Count(s[0].children, IsHeading)
    ensures Count(SplitSiblings(s), IsHeading) == Count(s, IsHeading)
  {
    var h, w := s[0], s[1];
    var rest := SplitSiblings(s[2..]);
    var p := Para(w);
    SplitUnfoldHeading(s);
    assert Count(s, IsHeading) == Count([h], IsHeading) + Count(s[2..], IsHeading) by {
      CountCons(s, IsHeading);
      CountCons(s[1..], IsHeading);
      assert s[1..][0] == w && s[1..][1..] == s[2..];
      NoHeadingIn(w);
    }
    assert Count([SplitNode(h)], IsHeading) == Count([h], IsHeading) by {
      CountOne(h, IsHeading);
      CountOne(SplitNode(h), IsHeading);
    }
    BrParaNoHeading(w, rest);
    CountConcat([SplitNode(h)], [Br] + ([p] + rest), IsHeading);
  }

  /** A `<br>` and a paragraph made from a string add no heading. */
  lemma BrParaNoHeading(w: Node, rest: seq<Node>)
    requires IsString(w)
    ensures Count([Br] + ([Para(w)] + rest), IsHeading) == Count(rest, IsHeading)
  {
    NoHeadingIn(w);
    CountOne(Br, IsHeading);
    CountConcat([Para(w)], rest, IsHeading);
    CountConcat([Br], [Para(w)] + rest, IsHeading);
  }

  lemma SplitCountPlain(s: seq<Node>)
    requires s != [] && !WordThenHeading(s) && !HeadingThenWord(s)
    requires Count(SplitSiblings(s[1..]), IsHeading) == Count(s[1..], IsHeading)
    requires s[0].Element? ==> Count(SplitSiblings(s[0].children), IsHeading) == Count(s[0].children, IsHeading)
    ensures Count(SplitSiblings(s), IsHeading) == Count(s, IsHeading)
  {
    SplitUnfoldPlain(s);
    CountCons(s, IsHeading);
    CountOne(s[0], IsHeading);
    CountOne(SplitNode(s[0]), IsHeading);
    CountConcat([SplitNode(s[0])], SplitSiblings(s[1..]), IsHeading);
  }

  // ---------------------------------------------------------------------
  // Images: a <br> after an image whose next sibling is a heading.
  // ---------------------------------------------------------------------

  /** The image loop's test on the siblings after an image: past truthy
      blank strings, the next sibling is a heading. */
  predicate HeadingNext(s: seq<Node>)
  {
    match NextNonBlank(s)
    case Some(n) => IsHeading(n)
    case None => false
  }

  /** The image loop. The `<br>` goes right after the image, so it never
      changes what another image sees next and the original siblings
      decide. */
  function ImgBreaks(s: seq<Node>): seq<Node>
    decreases s, 1
  {
    if s == [] then []
    else
      var n := s[0];
      [ImgNode(n)] + ((if IsImg(n) && HeadingNext(s[1..]) then [Br] else []) + ImgBreaks(s[1..]))
  }

  function ImgNode(n: Node): (r: Node)
    ensures Head(r) == Head(n)
    decreases n, 0
  {
    match n
    case Element(nm, a, cs) => Element(nm, a, ImgBreaks(cs))
    case other => other
  }

  /** No image is followed by a heading at any level. */
  predicate ImgClear(s: seq<Node>)
    decreases s
  {
    || s == []
    || (&& (IsImg(s[0]) ==> !HeadingNext(s[1..]))
        && (match s[0] case Element(_, _, cs) => ImgClear(cs) case _ => true)
        && ImgClear(s[1..]))
  }

  /** One step of the image loop, regrouped from the right. */
  lemma ImgUnfold(s: seq<Node>)
    requires s != []
    ensures ImgBreaks(s)
         == [ImgNode(s[0])]
            + ((if IsImg(s[0]) && HeadingNext(s[1..]) then [Br] else []) + ImgBreaks(s[1..]))
  {
  }

  /** The image loop leaves the next non-blank sibling of the front of a
      list of the same kind. */
  lemma {:induction false} ImgHeadingNext(s: seq<Node>)
    ensures HeadingNext(ImgBreaks(s)) == HeadingNext(s)
    decreases s
  {
    if s != [] {
      ImgUnfold(s);
      var n := s[0];
      var r := ImgBreaks(s);
      assert r[0] == ImgNode(n);
      if IsNonEmptyString(n) && IsBlank(n.text) {
        ImgHeadingNext(s[1..]);
        assert r[1..] == ImgBreaks(s[1..]);
      }
    }
  }

  /** `ImgClear` of a list given by its first node and the rest. */
  lemma ImgClearCons(x: Node, t: seq<Node>)
    ensures ImgClear([x] + t)
        <==> (IsImg(x) ==> !HeadingNext(t)) && (x.Element? ==> ImgClear(x.children)) && ImgClear(t)
  {
    assert ([x] + t)[0] == x && ([x] + t)[1..] == t;
  }

  /** A `<br>` in front stops the search for a heading. */
  lemma BrStopsHeadingNext(t: seq<Node>)
    ensures !HeadingNext([Br] + t)
  {
    assert ([Br] + t)[0] == Br;
  }

  /** After the image loop no image is followed by a heading. */
  lemma {:induction false} ImgBreaksClear(s: seq<Node>)
    ensures ImgClear(ImgBreaks(s))
    decreases s
  {
    if s != [] {
      ImgUnfold(s);
      var n := s[0];
      var rest := ImgBreaks(s[1..]);
      var mid := if IsImg(n) && HeadingNext(s[1..]) then [Br] else [];
      ImgBreaksClear(s[1..]);
      if n.Element? {
        ImgBreaksClear(n.children);
      }
      ImgHeadingNext(s[1..]);
      if mid != [] {
        BrStopsHeadingNext(rest);
        ImgClearCons(Br, rest);
        assert ImgClear(Br.children);
      } else {
        assert mid + rest == rest;
      }
      ImgClearCons(ImgNode(n), mid + rest);
    }
  }

  /** Where no image is followed by a heading, the image loop changes nothing. */
  lemma {:induction false} ImgIdentity(s: seq<Node>)
    requires ImgClear(s)
    ensures ImgBreaks(s) == s
    decreases s
  {
    if s != [] {
      ImgUnfold(s);
      ImgIdentity(s[1..]);
      if s[0].Element? {
        ImgIdentity(s[0].children);
      }
      assert [s[0]] + s[1..] == s;
    }
  }

  /** The image loop adds `<br>` tags and nothing else. */
  lemma {:induction false} ImgKeeps(s: seq<Node>)
    ensures Prune(ImgBreaks(s), IsBr) == Prune(s, IsBr)
    decreases s
  {
    if s != [] {
      ImgUnfold(s);
      var n := s[0];
      var n' := ImgNode(n);
      var mid := if IsImg(n) && HeadingNext(s[1..]) then [Br] else [];
      var rest := ImgBreaks(s[1..]);
      ImgKeeps(s[1..]);
      if n.Element? {
        ImgKeeps(n.children);
      }
      assert [n] + s[1..] == s;
      PruneConcat([n], s[1..], IsBr);
      PruneConcat([n'], mid + rest, IsBr);
      PruneConcat(mid, rest, IsBr);
      PruneOne(n, IsBr);
      PruneOne(n', IsBr);
      PruneOne(Br, IsBr);
    }
  }

  /** The image loop adds no text. */
  lemma {:induction false} ImgKeepsText(s: seq<Node>)
    ensures StrippedText(ImgBreaks(s)) == StrippedText(s)
    decreases s
  {
    if s != [] {
      ImgUnfold(s);
      var n := s[0];
      var mid := if IsImg(n) && HeadingNext(s[1..]) then [Br] else [];
      ImgKeepsText(s[1..]);
      if n.Element? {
        ImgKeepsText(n.children);
      }
      StrippedTextOne(Br);
      ImgTextStep(n, s[1..], mid, ImgBreaks(s[1..]));
      assert [n] + s[1..] == s;
    }
  }

  /** One step of the image loop keeps the text: the node with its
      children walked, then maybe a `<br>`, then the walked rest. */
  lemma ImgTextStep(n: Node, t: seq<Node>, mid: seq<Node>, rest: seq<Node>)
    requires n.Element? ==> StrippedText(ImgBreaks(n.children)) == StrippedText(n.children)
    requires StrippedText(mid) == []
    requires StrippedText(rest) == StrippedText(t)
    ensures StrippedText([ImgNode(n)] + (mid + rest)) == StrippedText([n] + t)
  {
    var n' := ImgNode(n);
    assert StrippedText([n']) == StrippedText([n]) by {
      if n.Element? {
        assert n'.children == ImgBreaks(n.children);
        StrippedTextOne(n);
        StrippedTextOne(n');
      } else {
        assert n' == n;
      }
    }
    var a, b := StrippedText([n]), StrippedText(t);
    assert StrippedText(mid + rest) == b by {
      StrippedTextConcat(mid, rest);
      EmptyFront(StrippedText(mid), b);
    }
    assert StrippedText([n'] + (mid + rest)) == a + b by {
      StrippedTextConcat([n'], mid + rest);
    }
    assert StrippedText([n] + t) == a + b by {
      StrippedTextConcat([n], t);
    }
  }

  lemma EmptyFront(x: string, y: string)
    requires x == []
    ensures x + y == y
  {
  }

  /** The image loop adds no heading and drops none. */
  lemma {:induction false} ImgHeadingCount(s: seq<Node>)
    ensures Count(ImgBreaks(s), IsHeading) == Count(s, IsHeading)
    decreases s
  {
    if s != [] {
      ImgUnfold(s);
      var n := s[0];
      var mid := if IsImg(n) && HeadingNext(s[1..]) then [Br] else [];
      ImgHeadingCount(s[1..]);
      if n.Element? {
        ImgHeadingCount(n.children);
      }
      ImgCountStep(n, s[1..], mid, ImgBreaks(s[1..]));
      assert [n] + s[1..] == s;
    }
  }

  /** One step of the image loop keeps the heading count. */
  lemma ImgCountStep(n: Node, t: seq<Node>, mid: seq<Node>, rest: seq<Node>)
    requires n.Element? ==> Count(ImgBreaks(n.children), IsHeading) == Count(n.children, IsHeading)
    requires mid == [] || mid == [Br]
    requires Count(rest, IsHeading) == Count(t, IsHeading)
    ensures Count([ImgNode(n)] + (mid + rest), IsHeading) == Count([n] + t, IsHeading)
  {
    CountConcat([n], t, IsHeading);
    CountOne(n, IsHeading);
    CountOne(ImgNode(n), IsHeading);
    CountOne(Br, IsHeading);
    CountBlock(ImgNode(n), mid, rest, IsHeading);
  }

  /** The image loop keeps word strings and headings apart: the `<br>` it
      inserts is neither. */
  lemma {:induction false} ImgKeepsApart(s: seq<Node>)
    requires Pairs(s, Apart)
    ensures Pairs(ImgBreaks(s), Apart)
    decreases s
  {
    if s != [] {
      ImgUnfold(s);
      var n := s[0];
      var n' := ImgNode(n);
      var mid := if IsImg(n) && HeadingNext(s[1..]) then [Br] else [];
      var rest := ImgBreaks(s[1..]);
      ImgKeepsApart(s[1..]);
      if n.Element? {
        ImgKeepsApart(n.children);
      }
      PairsOne(n', Apart);
      PairsOne(Br, Apart);
      if rest != [] {
        ImgUnfold(s[1..]);
        assert rest[0] == ImgNode(s[1]);
        ApartByHead(n', rest[0]);
        ApartByHead(n, s[1]);
      }
      PairsConcat(mid, rest, Apart);
      PairsConcat([n'], mid + rest, Apart);
    }
  }

  // ---------------------------------------------------------------------
  // Both loops, in the order `convert` runs them.
  // ---------------------------------------------------------------------

  /** The page markdownify receives: no word string touches a heading, no
      image is followed by a heading, the headings are those of the page,
      and (the page being free of comments) so is its visible text. */
  function SpaceHeadings(doc: seq<Node>): (r: seq<Node>)
    ensures Pairs(r, Apart) && ImgClear(r)
    ensures All(doc, Not(IsComment)) ==> StrippedText(r) == StrippedText(doc)
    ensures Count(r, IsHeading) == Count(doc, IsHeading)
  {
    var split := SplitSiblings(doc);
    SplitApart(doc);
    ImgKeepsApart(split);
    ImgBreaksClear(split);
    ImgKeepsText(split);
    ImgHeadingCount(split);
    SplitHeadingCount(doc);
    if All(doc, Not(IsComment)) then
      SplitKeepsText(doc);
      ImgBreaks(split)
    else
      ImgBreaks(split)
  }

  /** Running both loops twice is running them once. */
  lemma SpaceHeadingsIdempotent(doc: seq<Node>)
    ensures SpaceHeadings(SpaceHeadings(doc)) == SpaceHeadings(doc)
  {
    var r := SpaceHeadings(doc);
    SplitIdentity(r);
    ImgIdentity(r);
  }
}
