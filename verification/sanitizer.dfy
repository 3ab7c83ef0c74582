/**
  `Web2Markdown.clean_html`: the four passes that strip non-content markup
  from the parsed page, in the order the method runs them.
 */
module Sanitizer {
  import opened Options
  import opened PyStr
  import opened Dom

  // ---------------------------------------------------------------------
  // Pass 1: script, style, link and meta tags and comments are deleted.
  // ---------------------------------------------------------------------

  const NonContentNames: set<string> := {"script", "style", "link", "meta"}

  /** A node the first pass deletes, with everything below it. */
  predicate Removable(n: Node)
  {
    n.Comment? || (n.Element? && n.name in NonContentNames)
  }

  /** Every node, descendants included, survives the first pass untouched. */
  predicate ContentOnly(s: seq<Node>)
  {
    All(s, Not(Removable))
  }

  /** Whether a node is removable shows on its head. */
  lemma RemovableByHead()
    ensures forall n :: NotAt(Removable)(n) <==> Not(Removable)(n)
  {
    forall n: Node
      ensures NotAt(Removable)(n) <==> Not(Removable)(n)
    {
      assert Removable(Head(n)) == Removable(n);
    }
  }

  /** The five `find_all` / `decompose` (or `extract`) loops. Each removes
      whole subtrees chosen by their own name or kind, so their order does
      not matter and one pruning walk does all of them. */
  function RemoveNonContent(doc: seq<Node>): (r: seq<Node>)
    ensures ContentOnly(r)
    ensures r == doc <==> ContentOnly(doc)
  {
    var r := Prune(doc, Removable);
    RemovableByHead();
    AllWeaken(r, NotAt(Removable), Not(Removable));
    PruneIdentityIff(doc, Removable);
    if ContentOnly(doc) then
      AllWeaken(doc, Not(Removable), NotAt(Removable));
      r
    else r
  }

  /** The first pass node by node: a removable node goes with everything
      below it; any other node stays, with its head as it was and its
      children cleaned in turn. */
  lemma RemoveNonContentOne(n: Node)
    ensures RemoveNonContent([n]) == if Removable(n) then [] else match n
      case Element(nm, a, cs) => [Element(nm, a, RemoveNonContent(cs))]
      case other => [other]
  {
    PruneOne(n, Removable);
    assert Removable(Head(n)) == Removable(n);
  }

  /** The first pass treats siblings independently. */
  lemma RemoveNonContentConcat(a: seq<Node>, b: seq<Node>)
    ensures RemoveNonContent(a + b) == RemoveNonContent(a) + RemoveNonContent(b)
  {
    PruneConcat(a, b, Removable);
  }

  /** `b` is at least as clean as `a` and shows the same text: what every
      pass after the first promises about its output. */
  predicate Keeps(a: seq<Node>, b: seq<Node>)
  {
    (ContentOnly(a) ==> ContentOnly(b)) && StrippedText(b) == StrippedText(a)
  }

  lemma KeepsRefl(a: seq<Node>)
    ensures Keeps(a, a)
  {
  }

  lemma KeepsTrans(a: seq<Node>, b: seq<Node>, c: seq<Node>)
    requires Keeps(a, b) && Keeps(b, c)
    ensures Keeps(a, c)
  {
  }

  lemma KeepsConcat(a1: seq<Node>, b1: seq<Node>, a2: seq<Node>, b2: seq<Node>)
    requires Keeps(a1, b1) && Keeps(a2, b2)
    ensures Keeps(a1 + a2, b1 + b2)
  {
    AllConcat(a1, a2, Not(Removable));
    AllConcat(b1, b2, Not(Removable));
    StrippedTextConcat(a1, a2);
    StrippedTextConcat(b1, b2);
  }

  /** Rebuilding an element over kept children keeps it. */
  lemma KeepsElement(nm: string, attrs: map<string, string>, cs: seq<Node>, cs': seq<Node>)
    requires Keeps(cs, cs')
    ensures Keeps([Element(nm, attrs, cs)], [Element(nm, attrs, cs')])
  {
    var n, n' := Element(nm, attrs, cs), Element(nm, attrs, cs');
    AllOne(n, Not(Removable));
    AllOne(n', Not(Removable));
    assert Not(Removable)(n) == !Removable(n) == !Removable(n') == Not(Removable)(n');
    StrippedTextOne(n);
    StrippedTextOne(n');
  }

  /** A content node with no visible text, put in front, keeps a forest. */
  lemma KeepsBlankBefore(m: Node, x: seq<Node>)
    requires !Removable(m) && (m.Element? ==> m.children == []) && StrippedText([m]) == []
    ensures Keeps(x, [m] + x)
  {
    AllConcat([m], x, Not(Removable));
    AllOne(m, Not(Removable));
    assert Not(Removable)(m);
    StrippedTextConcat([m], x);
    assert [] + StrippedText(x) == StrippedText(x);
  }

  // ---------------------------------------------------------------------
  // Pass 2: a <br> after the first figcaption of every figure.
  // ---------------------------------------------------------------------

  predicate IsFigcaption(n: Node)
  {
    IsNamed(n, "figcaption")
  }

  /** A figure the second pass acts on: one with a figcaption below it. */
  predicate IsCaptionedFigure(n: Node)
  {
    IsNamed(n, "figure") && Any(n.children, IsFigcaption)
  }

  /** One round of the loop body after `figcaption.find` succeeded:
      `following` are the caption's next siblings. A `<br>` goes right
      after the caption; then the sibling after the caption, past blank
      strings, is checked for a heading. That sibling is the `<br>` just
      inserted, so the second `<br>` is never added. */
  function InsertCaptionBreak(following: seq<Node>): (r: seq<Node>)
    ensures r == [Br] + following
  {
    var withBr := [Br] + following;
    match NextNonBlank(withBr)
    case Some(next) => if IsHeading(next) then [Br] + withBr else withBr
    case None => withBr
  }

  /** `k` rounds of `InsertCaptionBreak` after the same caption: one for
      each figure whose first figcaption it is. */
  function BreaksAfterCaption(k: nat, following: seq<Node>): seq<Node>
  {
    if k == 0 then following else InsertCaptionBreak(BreaksAfterCaption(k - 1, following))
  }

  /** The figure loop over the forest `s`, walking it in document order.
      `waiting` counts the enclosing figures whose first figcaption has not
      been met yet: the next figcaption met is the first one of all of
      them, and gets one `<br>` per waiting figure. */
  function CaptionBreaks(s: seq<Node>, waiting: nat): seq<Node>
    decreases s
  {
    if s == [] then []
    else match s[0]
      case Element(nm, a, cs) =>
        if nm == "figcaption" then
          [Element(nm, a, CaptionBreaks(cs, 0))] + BreaksAfterCaption(waiting, CaptionBreaks(s[1..], 0))
        else
          var inside := if nm == "figure" then waiting + 1 else waiting;
          var after := if Any(cs, IsFigcaption) then 0 else waiting;
          [Element(nm, a, CaptionBreaks(cs, inside))] + CaptionBreaks(s[1..], after)
      case other => [other] + CaptionBreaks(s[1..], waiting)
  }

  /** The second pass over a whole document: one `<br>` per figure that
      has a figcaption, and nothing else changes. */
  function AddCaptionBreaks(doc: seq<Node>): (r: seq<Node>)
    ensures Count(r, IsBr) == Count(doc, IsBr) + Count(doc, IsCaptionedFigure)
    ensures Prune(r, IsBr) == Prune(doc, IsBr)
    ensures Keeps(doc, r)
  {
    CaptionBreaksCount(doc, 0);
    CaptionBreaksPrune(doc, 0);
    CaptionBreaksKeeps(doc, 0);
    CaptionBreaks(doc, 0)
  }

  /** Each round puts one `<br>` in front. */
  lemma BreaksAfterCaptionFront(k: nat, following: seq<Node>)
    requires k > 0
    ensures BreaksAfterCaption(k, following) == [Br] + BreaksAfterCaption(k - 1, following)
  {
  }

  /** A `<br>` put in front counts once and prunes away. */
  lemma BrInFront(rest: seq<Node>)
    ensures Count([Br] + rest, IsBr) == 1 + Count(rest, IsBr)
    ensures Prune([Br] + rest, IsBr) == Prune(rest, IsBr)
  {
    CountOne(Br, IsBr);
    assert Count(Br.children, IsBr) == 0;
    PruneOne(Br, IsBr);
    assert IsBr(Head(Br));
    CountConcat([Br], rest, IsBr);
    PruneConcat([Br], rest, IsBr);
    assert [] + Prune(rest, IsBr) == Prune(rest, IsBr);
  }

  lemma {:induction false} BreaksAfterCaptionShape(k: nat, following: seq<Node>)
    ensures Count(BreaksAfterCaption(k, following), IsBr) == k + Count(following, IsBr)
    ensures Prune(BreaksAfterCaption(k, following), IsBr) == Prune(following, IsBr)
  {
    if k > 0 {
      BreaksAfterCaptionShape(k - 1, following);
      BreaksAfterCaptionFront(k, following);
      BrInFront(BreaksAfterCaption(k - 1, following));
    }
  }

  /** What `CaptionBreaksCount` says of the walk from `waiting` over `s`,
      its result being `r`. */
  predicate CountsBreaks(s: seq<Node>, waiting: nat, r: seq<Node>)
  {
    Count(r, IsBr) == Count(s, IsBr) + Count(s, IsCaptionedFigure) + (if Any(s, IsFigcaption) then waiting else 0)
  }

  /** The count for a figcaption and what follows it, from the counts for
      its children and for its next siblings. */
  lemma CaptionCountCaption(a: map<string, string>, cs: seq<Node>, rest: seq<Node>, waiting: nat)
    requires CountsBreaks(cs, 0, CaptionBreaks(cs, 0))
    requires CountsBreaks(rest, 0, CaptionBreaks(rest, 0))
    ensures CountsBreaks([Element("figcaption", a, cs)] + rest, waiting,
                         [Element("figcaption", a, CaptionBreaks(cs, 0))] + BreaksAfterCaption(waiting, CaptionBreaks(rest, 0)))
  {
    var n := Element("figcaption", a, cs);
    var n' := Element("figcaption", a, CaptionBreaks(cs, 0));
    var tail := CaptionBreaks(rest, 0);
    CountConcat([n], rest, IsBr);
    CountConcat([n], rest, IsCaptionedFigure);
    CountConcat([n], rest, IsFigcaption);
    CountOne(n, IsBr);
    CountOne(n, IsCaptionedFigure);
    CountOne(n, IsFigcaption);
    CountOne(n', IsBr);
    BreaksAfterCaptionShape(waiting, tail);
    CountConcat([n'], BreaksAfterCaption(waiting, tail), IsBr);
  }

  /** The count for any other tag and its next siblings, from the counts
      for its children and for its next siblings. */
  lemma CaptionCountOther(nm: string, a: map<string, string>, cs: seq<Node>, rest: seq<Node>, waiting: nat)
    requires nm != "figcaption"
    requires CountsBreaks(cs, if nm == "figure" then waiting + 1 else waiting,
                          CaptionBreaks(cs, if nm == "figure" then waiting + 1 else waiting))
    requires CountsBreaks(rest, if Any(cs, IsFigcaption) then 0 else waiting,
                          CaptionBreaks(rest, if Any(cs, IsFigcaption) then 0 else waiting))
    ensures CountsBreaks([Element(nm, a, cs)] + rest, waiting,
                         [Element(nm, a, CaptionBreaks(cs, if nm == "figure" then waiting + 1 else waiting))]
                         + CaptionBreaks(rest, if Any(cs, IsFigcaption) then 0 else waiting))
  {
    var n := Element(nm, a, cs);
    var inside := if nm == "figure" then waiting + 1 else waiting;
    var after := if Any(cs, IsFigcaption) then 0 else waiting;
    var n' := Element(nm, a, CaptionBreaks(cs, inside));
    CountConcat([n], rest, IsBr);
    CountConcat([n], rest, IsCaptionedFigure);
    CountConcat([n], rest, IsFigcaption);
    CountOne(n, IsBr);
    CountOne(n, IsCaptionedFigure);
    CountOne(n, IsFigcaption);
    CountOne(n', IsBr);
    CountConcat([n'], CaptionBreaks(rest, after), IsBr);
  }

  /** The count for a string or comment and its next siblings. */
  lemma CaptionCountLeaf(n: Node, rest: seq<Node>, waiting: nat)
    requires !n.Element?
    requires CountsBreaks(rest, waiting, CaptionBreaks(rest, waiting))
    ensures CountsBreaks([n] + rest, waiting, [n] + CaptionBreaks(rest, waiting))
  {
    CountConcat([n], rest, IsBr);
    CountConcat([n], rest, IsCaptionedFigure);
    CountConcat([n], rest, IsFigcaption);
    CountOne(n, IsBr);
    CountOne(n, IsCaptionedFigure);
    CountOne(n, IsFigcaption);
    CountConcat([n], CaptionBreaks(rest, waiting), IsBr);
  }

  /** The second pass adds exactly one `<br>` per captioned figure (plus
      one per figure still waiting when the walk starts). */
  lemma {:induction false} CaptionBreaksCount(s: seq<Node>, waiting: nat)
    ensures Count(CaptionBreaks(s, waiting), IsBr)
         == Count(s, IsBr) + Count(s, IsCaptionedFigure) + (if Any(s, IsFigcaption) then waiting else 0)
    decreases s
  {
    if s != [] {
      var n := s[0];
      var rest := s[1..];
      assert s == [n] + rest;
      CaptionBreaksCons(n, rest, waiting);
      match n
      case Element(nm, a, cs) =>
        if nm == "figcaption" {
          CaptionBreaksCount(cs, 0);
          CaptionBreaksCount(rest, 0);
          CaptionCountCaption(a, cs, rest, waiting);
        } else {
          var inside := if nm == "figure" then waiting + 1 else waiting;
          var after := if Any(cs, IsFigcaption) then 0 else waiting;
          CaptionBreaksCount(cs, inside);
          CaptionBreaksCount(rest, after);
          CaptionCountOther(nm, a, cs, rest, waiting);
        }
      case other =>
        CaptionBreaksCount(rest, waiting);
        CaptionCountLeaf(other, rest, waiting);
    }
  }

  /** The second pass adds nothing but `<br>` tags. */
  lemma {:induction false} CaptionBreaksPrune(s: seq<Node>, waiting: nat)
    ensures Prune(CaptionBreaks(s, waiting), IsBr) == Prune(s, IsBr)
    decreases s
  {
    if s != [] {
      var n := s[0];
      var rest := s[1..];
      PruneConcat([n], rest, IsBr);
      assert [n] + rest == s;
      PruneOne(n, IsBr);
      match n
      case Element(nm, a, cs) =>
        var n' := Element(nm, a, CaptionBreaks(cs, if nm == "figure" then waiting + 1 else if nm == "figcaption" then 0 else waiting));
        PruneOne(n', IsBr);
        if nm == "figcaption" {
          CaptionBreaksPrune(cs, 0);
          CaptionBreaksPrune(rest, 0);
          var tail := BreaksAfterCaption(waiting, CaptionBreaks(rest, 0));
          BreaksAfterCaptionShape(waiting, CaptionBreaks(rest, 0));
          PruneConcat([n'], tail, IsBr);
        } else {
          var inside := if nm == "figure" then waiting + 1 else waiting;
          var after := if Any(cs, IsFigcaption) then 0 else waiting;
          CaptionBreaksPrune(cs, inside);
          CaptionBreaksPrune(rest, after);
          PruneConcat([n'], CaptionBreaks(rest, after), IsBr);
        }
      case other =>
        CaptionBreaksPrune(rest, waiting);
        PruneConcat([other], CaptionBreaks(rest, waiting), IsBr);
    }
  }

  /** The second pass keeps the document free of non-content nodes and
      keeps its visible text. */
  lemma {:induction false} CaptionBreaksKeeps(s: seq<Node>, waiting: nat)
    ensures Keeps(s, CaptionBreaks(s, waiting))
    decreases s
  {
    if s != [] {
      var n := s[0];
      var rest := s[1..];
      assert [n] + rest == s;
      match n
      case Element(nm, a, cs) =>
        var inside := if nm == "figure" then waiting + 1 else if nm == "figcaption" then 0 else waiting;
        CaptionBreaksKeeps(cs, inside);
        KeepsElement(nm, a, cs, CaptionBreaks(cs, inside));
        if nm == "figcaption" {
          CaptionBreaksKeeps(rest, 0);
          BreaksAfterCaptionKeeps(waiting, CaptionBreaks(rest, 0));
          KeepsTrans(rest, CaptionBreaks(rest, 0), BreaksAfterCaption(waiting, CaptionBreaks(rest, 0)));
          KeepsConcat([n], [Element(nm, a, CaptionBreaks(cs, inside))],
                      rest, BreaksAfterCaption(waiting, CaptionBreaks(rest, 0)));
        } else {
          var after := if Any(cs, IsFigcaption) then 0 else waiting;
          CaptionBreaksKeeps(rest, after);
          KeepsConcat([n], [Element(nm, a, CaptionBreaks(cs, inside))], rest, CaptionBreaks(rest, after));
        }
      case other =>
        CaptionBreaksKeeps(rest, waiting);
        KeepsRefl([other]);
        KeepsConcat([other], [other], rest, CaptionBreaks(rest, waiting));
    }
  }

  /** Without a figcaption the second pass changes nothing. */
  lemma {:induction false} CaptionBreaksIdentity(s: seq<Node>, waiting: nat)
    requires All(s, Not(IsFigcaption))
    ensures CaptionBreaks(s, waiting) == s
    decreases s
  {
    if s != [] {
      var n := s[0];
      assert Not(IsFigcaption)(n);
      CaptionBreaksIdentity(s[1..], waiting);
      if n.Element? {
        AllNotCountZero(n.children, IsFigcaption);
        CaptionBreaksIdentity(n.children, if n.name == "figure" then waiting + 1 else waiting);
      }
      assert [n] + s[1..] == s;
    }
  }

  /** The walk over a forest with its first node split off. */
  lemma CaptionBreaksCons(n: Node, t: seq<Node>, waiting: nat)
    ensures CaptionBreaks([n] + t, waiting) == match n
      case Element(nm, a, cs) =>
        if nm == "figcaption" then
          [Element(nm, a, CaptionBreaks(cs, 0))] + BreaksAfterCaption(waiting, CaptionBreaks(t, 0))
        else
          [Element(nm, a, CaptionBreaks(cs, if nm == "figure" then waiting + 1 else waiting))]
          + CaptionBreaks(t, if Any(cs, IsFigcaption) then 0 else waiting)
      case other => [other] + CaptionBreaks(t, waiting)
  {
    assert ([n] + t)[0] == n && ([n] + t)[1..] == t;
  }

  /** A node without a figcaption in it is walked unchanged. */
  lemma CaptionBreaksPlainNode(n: Node, t: seq<Node>, waiting: nat)
    requires All([n], Not(IsFigcaption))
    ensures CaptionBreaks([n] + t, waiting) == [n] + CaptionBreaks(t, waiting)
  {
    AllOne(n, Not(IsFigcaption));
    assert Not(IsFigcaption)(n);
    CaptionBreaksCons(n, t, waiting);
    if n.Element? {
      AllNotCountZero(n.children, IsFigcaption);
      CaptionBreaksIdentity(n.children, if n.name == "figure" then waiting + 1 else waiting);
    }
  }

  /** Siblings without a figcaption anywhere below them are walked
      unchanged, and the walk goes on after them still waiting. */
  lemma {:induction false} CaptionBreaksAfterPlain(pre: seq<Node>, rest: seq<Node>, waiting: nat)
    requires All(pre, Not(IsFigcaption))
    ensures CaptionBreaks(pre + rest, waiting) == pre + CaptionBreaks(rest, waiting)
    decreases pre
  {
    if pre == [] {
      assert pre + rest == rest;
    } else {
      var n, t := pre[0], pre[1..];
      assert pre == [n] + t;
      AllConcat([n], t, Not(IsFigcaption));
      assert pre + rest == [n] + (t + rest);
      CaptionBreaksPlainNode(n, t + rest, waiting);
      CaptionBreaksAfterPlain(t, rest, waiting);
      assert [n] + (t + CaptionBreaks(rest, waiting)) == pre + CaptionBreaks(rest, waiting);
    }
  }

  /** The walk inside a figure, from its children on: what comes before
      the first figcaption stays, and a `<br>` follows that figcaption. */
  lemma CaptionBreaksFigureChildren(pre: seq<Node>, b: map<string, string>, cs: seq<Node>, post: seq<Node>)
    requires All(pre, Not(IsFigcaption))
    ensures CaptionBreaks(pre + [Element("figcaption", b, cs)] + post, 1)
         == pre + [Element("figcaption", b, CaptionBreaks(cs, 0)), Br] + CaptionBreaks(post, 0)
  {
    var x := [Element("figcaption", b, cs)] + post;
    var front := [Element("figcaption", b, CaptionBreaks(cs, 0)), Br];
    var tail := CaptionBreaks(post, 0);
    Associate(pre, [Element("figcaption", b, cs)], post);
    Associate(pre, front, tail);
    CaptionBreaksAfterPlain(pre, x, 1);
    CaptionBreakAfterCaption(b, cs, post);
  }

  lemma Associate(a: seq<Node>, b: seq<Node>, c: seq<Node>)
    ensures a + b + c == a + (b + c)
  {
  }

  /** A figcaption met while one figure waits gets one `<br>` after it. */
  lemma CaptionBreakAfterCaption(b: map<string, string>, cs: seq<Node>, post: seq<Node>)
    ensures CaptionBreaks([Element("figcaption", b, cs)] + post, 1)
         == [Element("figcaption", b, CaptionBreaks(cs, 0)), Br] + CaptionBreaks(post, 0)
  {
    var tail := CaptionBreaks(post, 0);
    CaptionBreaksCons(Element("figcaption", b, cs), post, 1);
    BreaksAfterCaptionFront(1, tail);
    assert BreaksAfterCaption(0, tail) == tail;
  }

  /** Where the second pass puts the `<br>`: in a figure whose first
      figcaption among its children comes after siblings without one,
      right after that figcaption; the figcaption's own children and its
      later siblings are walked as figure-free parts of the page. */
  lemma CaptionBreakPlacement(a: map<string, string>, pre: seq<Node>, b: map<string, string>,
                              cs: seq<Node>, post: seq<Node>)
    requires All(pre, Not(IsFigcaption))
    ensures AddCaptionBreaks([Element("figure", a, pre + [Element("figcaption", b, cs)] + post)])
         == [Element("figure", a, pre + [Element("figcaption", b, CaptionBreaks(cs, 0)), Br] + CaptionBreaks(post, 0))]
  {
    var kids := pre + [Element("figcaption", b, cs)] + post;
    CaptionBreaksFigureChildren(pre, b, cs, post);
    CaptionBreaksCons(Element("figure", a, kids), [], 0);
    assert [Element("figure", a, kids)] + [] == [Element("figure", a, kids)];
  }

  /** Repeated `<br>` insertion after one caption. */
  lemma {:induction false} BreaksAfterCaptionKeeps(k: nat, following: seq<Node>)
    ensures Keeps(following, BreaksAfterCaption(k, following))
  {
    if k == 0 {
      KeepsRefl(following);
    } else {
      BreaksAfterCaptionKeeps(k - 1, following);
      BreaksAfterCaptionStep(k, following);
    }
  }

  lemma BreaksAfterCaptionStep(k: nat, following: seq<Node>)
    requires k > 0 && Keeps(following, BreaksAfterCaption(k - 1, following))
    ensures Keeps(following, BreaksAfterCaption(k, following))
  {
    var rest := BreaksAfterCaption(k - 1, following);
    BreaksAfterCaptionFront(k, following);
    StrippedTextOne(Br);
    KeepsBlankBefore(Br, rest);
    KeepsTrans(following, rest, [Br] + rest);
  }

  // ---------------------------------------------------------------------
  // Pass 3: blank wrappers become a newline, in heading-free documents.
  // ---------------------------------------------------------------------

  /** Tags the third pass never replaces: layout tags and headings. */
  const LayoutNames: set<string> := {"figure", "img", "br", "hr", "div", "p", "figcaption"}

  const MediaNames: set<string> := {"img", "video", "iframe"}

  /** The text node a replaced wrapper leaves behind. */
  const Newline: Node := Text("\n")

  predicate IsMedia(n: Node)
  {
    n.Element? && n.name in MediaNames
  }

  /** Some child of the tag (not a deeper descendant) is an image, a video
      or an iframe. */
  predicate HasMediaChild(children: seq<Node>)
  {
    exists i :: 0 <= i < |children| && IsMedia(children[i])
  }

  /** The per-tag test of the third pass, the document-wide heading test
      aside: not a layout tag or heading, no direct media child, and no
      visible text below it. */
  predicate Elidable(n: Node)
  {
    && n.Element?
    && n.name !in LayoutNames
    && n.name !in HeadingNames
    && !HasMediaChild(n.children)
    && StrippedText(n.children) == []
  }

  /** The replacement walk over a heading-free forest. The loop visits
      tags in document order over a snapshot; a replaced tag's subtree is
      detached, so what the loop later does inside it never shows, and a
      replacement never changes the test of a later tag. */
  function ElideForest(s: seq<Node>): (r: seq<Node>)
    ensures |r| == |s|
    decreases s, 1
  {
    seq(|s|, i requires 0 <= i < |s| => ElideNode(s[i]))
  }

  /** A node becomes a newline only when it is replaceable; otherwise it
      keeps its head, and a kept tag's children are walked in turn. */
  function ElideNode(n: Node): (r: Node)
    ensures Head(r) == Head(n) || (Elidable(n) && r == Newline)
    ensures r.Element? ==> r.children == ElideForest(n.children)
    decreases n, 0
  {
    if Elidable(n) then Newline
    else match n
      case Element(nm, a, cs) => Element(nm, a, ElideForest(cs))
      case other => other
  }

  /** The third pass. `find_next` and `find_previous` together search the
      whole document but the tag itself, and headings are skipped before
      they are asked; so one heading anywhere turns the pass off. */
  function ElideBlank(doc: seq<Node>): (r: seq<Node>)
    ensures Any(doc, IsHeading) ==> r == doc
    ensures Keeps(doc, r)
  {
    if Any(doc, IsHeading) then doc
    else
      ElideKeeps(doc);
      ElideForest(doc)
  }

  /** A replaced wrapper had no visible text and its newline has none,
      so the walk keeps the visible text of the document and adds no
      non-content node. */
  lemma {:induction false} ElideKeeps(s: seq<Node>)
    ensures Keeps(s, ElideForest(s))
    decreases s
  {
    if s != [] {
      var n := s[0];
      ElideForestCons(s);
      ElideKeeps(s[1..]);
      if Elidable(n) {
        StrippedTextOne(n);
        StrippedTextOne(Newline);
        assert Strip("\n") == [];
        AllOne(Newline, Not(Removable));
        assert Keeps([n], [Newline]);
      } else if n.Element? {
        ElideKeeps(n.children);
        KeepsElement(n.name, n.attrs, n.children, ElideForest(n.children));
      } else {
        KeepsRefl([n]);
      }
      KeepsConcat([n], [ElideNode(n)], s[1..], ElideForest(s[1..]));
      assert [n] + s[1..] == s;
    }
  }

  /** The first node and the rest of a replacement walk. */
  lemma ElideForestCons(s: seq<Node>)
    requires s != []
    ensures ElideForest(s) == [ElideNode(s[0])] + ElideForest(s[1..])
  {
    assert ElideForest(s)[1..] == ElideForest(s[1..]);
  }

  /** A video or iframe with nothing visible in it and no media child:
      the third pass replaces the medium itself. */
  predicate IsBlankMedia(n: Node)
  {
    IsMedia(n) && Elidable(n)
  }

  /** Where no medium is blank, no tag the third pass would replace is left:
      every kept tag keeps its media child or its visible text. */
  lemma {:induction false} ElideSettles(s: seq<Node>)
    requires All(s, Not(IsBlankMedia))
    ensures All(ElideForest(s), Not(Elidable))
    decreases s
  {
    if s != [] {
      ElideForestCons(s);
      ElideSettles(s[1..]);
      var n := s[0];
      var n' := ElideNode(n);
      AllOne(n', Not(Elidable));
      AllConcat([n'], ElideForest(s[1..]), Not(Elidable));
      assert Not(Elidable)(n') == !Elidable(n');
      if !Elidable(n) && n.Element? {
        var cs := n.children;
        assert n' == Element(n.name, n.attrs, ElideForest(cs));
        ElideSettles(cs);
        ElideKeeps(cs);
        if HasMediaChild(cs) {
          var j :| 0 <= j < |cs| && IsMedia(cs[j]);
          MediaChildKept(cs, j);
          assert IsMedia(n'.children[j]);
          assert HasMediaChild(n'.children);
        }
        assert !Elidable(n');
      }
    }
  }

  /** A medium that is not blank keeps its place and its name. */
  lemma {:induction false} MediaChildKept(cs: seq<Node>, j: nat)
    requires j < |cs| && IsMedia(cs[j]) && All(cs, Not(IsBlankMedia))
    ensures IsMedia(ElideForest(cs)[j])
    decreases j
  {
    ElideForestCons(cs);
    if j > 0 {
      assert All(cs[1..], Not(IsBlankMedia));
      MediaChildKept(cs[1..], j - 1);
    } else {
      assert Not(IsBlankMedia)(cs[0]);
    }
  }

  /** Where no tag is replaceable, the walk changes nothing. */
  lemma {:induction false} ElideIdentity(s: seq<Node>)
    requires All(s, Not(Elidable))
    ensures ElideForest(s) == s
    decreases s
  {
    if s != [] {
      ElideForestCons(s);
      ElideIdentity(s[1..]);
      if s[0].Element? {
        ElideIdentity(s[0].children);
      }
    }
  }

  /** The walk creates no heading. */
  lemma {:induction false} ElideNoNewHeading(s: seq<Node>)
    requires All(s, Not(IsHeading))
    ensures All(ElideForest(s), Not(IsHeading))
    decreases s
  {
    if s != [] {
      ElideForestCons(s);
      ElideNoNewHeading(s[1..]);
      AllConcat([ElideNode(s[0])], ElideForest(s[1..]), Not(IsHeading));
      AllOne(ElideNode(s[0]), Not(IsHeading));
      if s[0].Element? {
        ElideNoNewHeading(s[0].children);
      }
    }
  }

  /** Without a blank video or iframe, running the third pass twice is
      running it once. */
  lemma ElideIdempotent(doc: seq<Node>)
    requires All(doc, Not(IsBlankMedia))
    ensures ElideBlank(ElideBlank(doc)) == ElideBlank(doc)
  {
    if !Any(doc, IsHeading) {
      AllNotCountZero(doc, IsHeading);
      ElideNoNewHeading(doc);
      AllNotCountZero(ElideForest(doc), IsHeading);
      ElideSettles(doc);
      ElideIdentity(ElideForest(doc));
    }
  }

  /** Where the page has no heading, every top-level node the third pass
      meets is replaced by a newline exactly when it is replaceable, and
      otherwise keeps its head. */
  lemma ElideBlankRule(doc: seq<Node>)
    requires !Any(doc, IsHeading)
    ensures var r := ElideBlank(doc);
            && |r| == |doc|
            && (forall i :: 0 <= i < |doc| && Elidable(doc[i]) ==> r[i] == Newline)
            && (forall i :: 0 <= i < |doc| && !Elidable(doc[i]) ==> Head(r[i]) == Head(doc[i]))
  {
    var r := ElideBlank(doc);
    forall i | 0 <= i < |doc| ensures r[i] == ElideNode(doc[i]) && (Elidable(doc[i]) ==> r[i] == Newline) {
    }
  }

  /** In a heading-free document the third pass is the replacement walk. */
  lemma ElideBlankHeadingFree(doc: seq<Node>)
    requires All(doc, Not(IsHeading))
    ensures ElideBlank(doc) == ElideForest(doc)
  {
    AllNotCountZero(doc, IsHeading);
  }

  /** A blank video goes; the span kept for it stays, now empty. */
  lemma ElideVideoOnce()
    ensures ElideBlank([Element("span", map[], [Element("video", map[], [])])])
         == [Element("span", map[], [Newline])]
  {
    var video := Element("video", map[], []);
    var span := Element("span", map[], [video]);
    var doc := [span];
    assert !IsHeading(video) && !IsHeading(span);
    AllOne(video, Not(IsHeading));
    AllOne(span, Not(IsHeading));
    assert doc == [doc[0]];
    ElideBlankHeadingFree(doc);
    assert Elidable(video);
    assert IsMedia([video][0]);
    assert !Elidable(span);
    assert ElideForest([]) == [];
    ElideForestCons([video]);
    assert ElideForest([video]) == [Newline];
    ElideForestCons(doc);
  }

  /** The emptied span goes on a second run. */
  lemma ElideEmptiedSpan()
    ensures ElideBlank([Element("span", map[], [Newline])]) == [Newline]
  {
    var once := [Element("span", map[], [Newline])];
    assert !IsHeading(Newline) && !IsHeading(once[0]);
    AllOne(Newline, Not(IsHeading));
    AllOne(once[0], Not(IsHeading));
    assert once == [once[0]];
    ElideBlankHeadingFree(once);
    StrippedTextOne(Newline);
    assert !HasMediaChild([Newline]);
    assert Elidable(once[0]);
    assert ElideForest([]) == [];
    ElideForestCons(once);
  }

  /** With a blank video, the third pass is not idempotent: the wrapper
      kept for its video child is emptied when the video goes, and a
      second run replaces the wrapper too. */
  lemma ElideNotIdempotent()
    ensures var doc := [Element("span", map[], [Element("video", map[], [])])];
            ElideBlank(ElideBlank(doc)) != ElideBlank(doc)
  {
    ElideVideoOnce();
    ElideEmptiedSpan();
    assert [Newline] != [Element("span", map[], [Newline])] by {
      assert [Newline][0].Text?;
    }
  }

  /** A wrapper whose image is a grandchild is replaced, image and all, in
      a heading-free document. */
  lemma ElideDropsNestedImage()
    ensures var img := Element("img", map["src" := "a.png"], []);
            ElideBlank([Element("span", map[], [Element("a", map[], [img])])]) == [Newline]
  {
    var img := Element("img", map["src" := "a.png"], []);
    var link := Element("a", map[], [img]);
    var span := Element("span", map[], [link]);
    var doc := [span];
    assert All(doc, Not(IsHeading)) by {
      assert !IsHeading(img) && !IsHeading(link) && !IsHeading(span);
      AllOne(img, Not(IsHeading));
      AllOne(link, Not(IsHeading));
      AllOne(span, Not(IsHeading));
    }
    ElideBlankHeadingFree(doc);
    assert Elidable(span) by {
      StrippedTextOne(img);
      StrippedTextOne(link);
      assert StrippedText([link]) == [];
      assert !IsMedia([link][0]);
      assert !HasMediaChild([link]);
    }
    assert ElideForest(doc) == [Newline] by {
      ElideForestCons(doc);
      assert ElideForest([]) == [];
    }
  }

  // ---------------------------------------------------------------------
  // Pass 4: a "\n\n" string between a heading and a string neighbour.
  // ---------------------------------------------------------------------

  /** The string the fourth pass inserts. */
  const Gap: Node := Text("\n\n")

  /** A neighbour the fourth pass reacts to: present, a string, and truthy. */
  predicate StringNeighbour(o: Option<Node>)
  {
    o.Some? && IsNonEmptyString(o.value)
  }

  /** The fourth pass over the siblings `s`, whose left neighbour is `prev`.
      `clean_html` visits h1 headings, then h2, ..., inserting a gap before
      and after; a gap only ever lands between a heading and a string, so
      no heading's neighbours change kind before the heading is visited
      and the original neighbours decide. */
  function IsolateSiblings(s: seq<Node>, prev: Option<Node>): seq<Node>
    decreases s, 1
  {
    if s == [] then []
    else
      var n := s[0];
      var next := if |s| > 1 then Some(s[1]) else None;
      GapIf(IsHeading(n) && StringNeighbour(prev)) + [IsolateNode(n)]
      + GapIf(IsHeading(n) && StringNeighbour(next)) + IsolateSiblings(s[1..], Some(n))
  }

  /** A gap, or nothing. */
  function GapIf(b: bool): seq<Node>
  {
    if b then [Gap] else []
  }

  /** A gap is one string, blank, and no element. */
  lemma GapIfFacts(b: bool, x: seq<Node>)
    ensures Count(GapIf(b) + x, IsString) == (if b then 1 else 0) + Count(x, IsString)
    ensures Prune(GapIf(b) + x, IsString) == Prune(x, IsString)
    ensures StrippedText(GapIf(b) + x) == StrippedText(x)
  {
    if b {
      CountConcat([Gap], x, IsString);
      CountOne(Gap, IsString);
      PruneConcat([Gap], x, IsString);
      PruneOne(Gap, IsString);
      StrippedTextConcat([Gap], x);
      StrippedTextOne(Gap);
      assert Strip("\n\n") == [];
    } else {
      assert GapIf(b) + x == x;
    }
  }

  function IsolateNode(n: Node): (r: Node)
    ensures Head(r) == Head(n)
    decreases n, 0
  {
    match n
    case Element(nm, a, cs) => Element(nm, a, IsolateSiblings(cs, None))
    case other => other
  }

  /** Headings and their non-empty string neighbours are kept apart by a gap. */
  predicate Spaced(a: Node, b: Node)
  {
    && (IsHeading(b) && IsNonEmptyString(a) ==> a == Gap)
    && (IsHeading(a) && IsNonEmptyString(b) ==> b == Gap)
  }

  /** One for each side on which a heading touches a non-empty string. */
  function Touching(a: Node, b: Node): nat
  {
    (if IsHeading(a) && IsNonEmptyString(b) then 1 else 0)
    + (if IsNonEmptyString(a) && IsHeading(b) then 1 else 0)
  }

  /** The first node the fourth pass emits for non-empty siblings. */
  lemma IsolateFirst(s: seq<Node>, prev: Option<Node>)
    requires s != []
    ensures IsolateSiblings(s, prev)[0]
         == if IsHeading(s[0]) && StringNeighbour(prev) then Gap else IsolateNode(s[0])
  {
  }

  /** One emitted block (optional gap, node, optional gap) in front of
      spaced siblings is spaced when the node meets the first of them. */
  lemma SpacedBlock(m: Node, b1: bool, b2: bool, rest: seq<Node>)
    requires Pairs([m], Spaced) && Pairs(rest, Spaced)
    requires b1 ==> IsHeading(m)
    requires b2 ==> IsHeading(m)
    requires rest != [] && !b2 ==> Spaced(m, rest[0])
    ensures Pairs(GapIf(b1) + ([m] + (GapIf(b2) + rest)), Spaced)
  {
    PairsOne(Gap, Spaced);
    PairsConcat(GapIf(b2), rest, Spaced);
    PairsConcat([m], GapIf(b2) + rest, Spaced);
    PairsConcat(GapIf(b1), [m] + (GapIf(b2) + rest), Spaced);
  }

  /** After the fourth pass every heading's string neighbours are gaps. */
  lemma {:induction false} IsolateSpaced(s: seq<Node>, prev: Option<Node>)
    ensures Pairs(IsolateSiblings(s, prev), Spaced)
    decreases s
  {
    if s != [] {
      var n := s[0];
      var n' := IsolateNode(n);
      var next := if |s| > 1 then Some(s[1]) else None;
      var b1 := IsHeading(n) && StringNeighbour(prev);
      var b2 := IsHeading(n) && StringNeighbour(next);
      var rest := IsolateSiblings(s[1..], Some(n));
      IsolateSpaced(s[1..], Some(n));
      if n.Element? {
        IsolateSpaced(n.children, None);
      }
      PairsOne(n', Spaced);
      assert Head(n') == Head(n);
      if |s| > 1 {
        IsolateFirst(s[1..], Some(n));
        assert Head(IsolateNode(s[1])) == Head(s[1]);
      }
      IsolateUnfold(s, prev);
      SpacedBlock(n', b1, b2, rest);
    }
  }

  /** The strings the fourth pass emits for non-empty siblings, block by block. */
  lemma IsolateCountStep(s: seq<Node>, prev: Option<Node>)
    requires s != []
    ensures Count(IsolateSiblings(s, prev), IsString)
         == (if IsHeading(s[0]) && StringNeighbour(prev) then 1 else 0)
            + Count([IsolateNode(s[0])], IsString)
            + (if IsHeading(s[0]) && |s| > 1 && IsNonEmptyString(s[1]) then 1 else 0)
            + Count(IsolateSiblings(s[1..], Some(s[0])), IsString)
  {
    var n := s[0];
    var next := if |s| > 1 then Some(s[1]) else None;
    var b1 := IsHeading(n) && StringNeighbour(prev);
    var b2 := IsHeading(n) && StringNeighbour(next);
    var rest := IsolateSiblings(s[1..], Some(n));
    IsolateUnfold(s, prev);
    assert b2 == (IsHeading(s[0]) && |s| > 1 && IsNonEmptyString(s[1]));
    GapBlockCount(b1, IsolateNode(n), b2, rest);
  }

  /** The fourth pass on non-empty siblings, regrouped from the right. */
  lemma IsolateUnfold(s: seq<Node>, prev: Option<Node>)
    requires s != []
    ensures IsolateSiblings(s, prev)
         == GapIf(IsHeading(s[0]) && StringNeighbour(prev))
            + ([IsolateNode(s[0])]
               + (GapIf(IsHeading(s[0]) && StringNeighbour(if |s| > 1 then Some(s[1]) else None))
                  + IsolateSiblings(s[1..], Some(s[0]))))
  {
    var n := s[0];
    var next := if |s| > 1 then Some(s[1]) else None;
    Regroup(GapIf(IsHeading(n) && StringNeighbour(prev)), [IsolateNode(n)],
            GapIf(IsHeading(n) && StringNeighbour(next)), IsolateSiblings(s[1..], Some(n)));
  }

  lemma Regroup(a: seq<Node>, b: seq<Node>, c: seq<Node>, d: seq<Node>)
    ensures a + b + c + d == a + (b + (c + d))
  {
  }

  /** The strings of one emitted block: optional gap, node, optional gap, rest. */
  lemma GapBlockCount(b1: bool, m: Node, b2: bool, rest: seq<Node>)
    ensures Count(GapIf(b1) + ([m] + (GapIf(b2) + rest)), IsString)
         == (if b1 then 1 else 0) + Count([m], IsString) + (if b2 then 1 else 0) + Count(rest, IsString)
  {
    GapIfFacts(b1, [m] + (GapIf(b2) + rest));
    CountConcat([m], GapIf(b2) + rest, IsString);
    GapIfFacts(b2, rest);
  }

  /** Touching splits into the heading-on-the-left side and the
      heading-on-the-right side. */
  lemma TouchingSides(s: seq<Node>)
    requires |s| > 1
    ensures Touching(s[0], s[1])
         == (if IsHeading(s[0]) && IsNonEmptyString(s[1]) then 1 else 0)
            + (if IsHeading(s[1..][0]) && StringNeighbour(Some(s[0])) then 1 else 0)
  {
  }

  /** The fourth pass adds exactly one string per side on which a heading
      touches a non-empty string (and one more when the first sibling is a
      heading whose left neighbour is such a string). */
  lemma {:induction false} IsolateCount(s: seq<Node>, prev: Option<Node>)
    ensures Count(IsolateSiblings(s, prev), IsString)
         == Count(s, IsString) + PairTotal(s, Touching)
            + (if s != [] && IsHeading(s[0]) && StringNeighbour(prev) then 1 else 0)
    decreases s
  {
    if s != [] {
      var n := s[0];
      IsolateCountStep(s, prev);
      IsolateCount(s[1..], Some(n));
      if n.Element? {
        IsolateCount(n.children, None);
      }
      IsolateNodeCount(n);
      CountCons(s, IsString);
      PairTotalCons(s, Touching);
      if |s| > 1 {
        TouchingSides(s);
      }
    }
  }

  /** The strings under one node after the fourth pass, given those of its
      children. */
  lemma IsolateNodeCount(n: Node)
    requires n.Element? ==> Count(IsolateSiblings(n.children, None), IsString)
                            == Count(n.children, IsString) + PairTotal(n.children, Touching)
    ensures Count([IsolateNode(n)], IsString)
         == Count([n], IsString) + (if n.Element? then PairTotal(n.children, Touching) else 0)
  {
    CountOne(n, IsString);
    CountOne(IsolateNode(n), IsString);
  }

  /** A gap in front keeps a forest. */
  lemma GapIfKeeps(b: bool, x: seq<Node>)
    ensures Keeps(x, GapIf(b) + x)
    ensures Prune(GapIf(b) + x, IsString) == Prune(x, IsString)
  {
    GapIfFacts(b, x);
    if b {
      StrippedTextOne(Gap);
      assert Strip("\n\n") == [];
      KeepsBlankBefore(Gap, x);
    } else {
      assert GapIf(b) + x == x;
    }
  }

  /** A node over children the pass kept is kept. */
  lemma IsolateNodeKeeps(n: Node)
    requires n.Element? ==> Keeps(n.children, IsolateSiblings(n.children, None))
    ensures Keeps([n], [IsolateNode(n)])
  {
    if n.Element? {
      KeepsElement(n.name, n.attrs, n.children, IsolateNode(n).children);
    } else {
      KeepsRefl([n]);
    }
  }

  /** A node over children the pass only added strings to has only had
      strings added. */
  lemma IsolateNodePrune(n: Node)
    requires n.Element? ==> Prune(IsolateSiblings(n.children, None), IsString) == Prune(n.children, IsString)
    ensures Prune([IsolateNode(n)], IsString) == Prune([n], IsString)
  {
    PruneOne(n, IsString);
    PruneOne(IsolateNode(n), IsString);
  }

  /** One emitted block (optional gap, kept node, optional gap) in front
      of kept siblings keeps the node and its siblings. */
  lemma KeepsBlock(n: Node, n': Node, b1: bool, b2: bool, tail: seq<Node>, rest: seq<Node>)
    requires Keeps([n], [n']) && Keeps(tail, rest)
    ensures Keeps([n] + tail, GapIf(b1) + ([n'] + (GapIf(b2) + rest)))
  {
    GapIfKeeps(b2, rest);
    KeepsTrans(tail, rest, GapIf(b2) + rest);
    KeepsConcat([n], [n'], tail, GapIf(b2) + rest);
    GapIfKeeps(b1, [n'] + (GapIf(b2) + rest));
    KeepsTrans([n] + tail, [n'] + (GapIf(b2) + rest), GapIf(b1) + ([n'] + (GapIf(b2) + rest)));
  }

  /** The same block, with the strings taken out, is the node and its
      siblings with the strings taken out. */
  lemma PruneBlock(n: Node, n': Node, b1: bool, b2: bool, tail: seq<Node>, rest: seq<Node>)
    requires Prune([n'], IsString) == Prune([n], IsString) && Prune(rest, IsString) == Prune(tail, IsString)
    ensures Prune(GapIf(b1) + ([n'] + (GapIf(b2) + rest)), IsString) == Prune([n] + tail, IsString)
  {
    GapIfKeeps(b2, rest);
    PruneConcat([n'], GapIf(b2) + rest, IsString);
    PruneConcat([n], tail, IsString);
    GapIfKeeps(b1, [n'] + (GapIf(b2) + rest));
  }

  /** The fourth pass keeps every element: it only inserts strings. */
  lemma {:induction false} IsolatePrune(s: seq<Node>, prev: Option<Node>)
    ensures Prune(IsolateSiblings(s, prev), IsString) == Prune(s, IsString)
    decreases s
  {
    if s != [] {
      var n := s[0];
      var next := if |s| > 1 then Some(s[1]) else None;
      IsolateUnfold(s, prev);
      IsolatePrune(s[1..], Some(n));
      if n.Element? {
        IsolatePrune(n.children, None);
      }
      IsolateNodePrune(n);
      PruneBlock(n, IsolateNode(n), IsHeading(n) && StringNeighbour(prev), IsHeading(n) && StringNeighbour(next),
                 s[1..], IsolateSiblings(s[1..], Some(n)));
      assert [n] + s[1..] == s;
    }
  }

  /** The fourth pass keeps the page clean and its visible text: the
      strings it inserts are blank. */
  lemma {:induction false} IsolateKeeps(s: seq<Node>, prev: Option<Node>)
    ensures Keeps(s, IsolateSiblings(s, prev))
    decreases s
  {
    if s != [] {
      var n := s[0];
      var next := if |s| > 1 then Some(s[1]) else None;
      IsolateUnfold(s, prev);
      IsolateKeeps(s[1..], Some(n));
      if n.Element? {
        IsolateKeeps(n.children, None);
      }
      IsolateNodeKeeps(n);
      KeepsBlock(n, IsolateNode(n), IsHeading(n) && StringNeighbour(prev), IsHeading(n) && StringNeighbour(next),
                 s[1..], IsolateSiblings(s[1..], Some(n)));
      assert [n] + s[1..] == s;
    }
  }

  /** A node whose children the pass leaves alone is left alone. */
  lemma IsolateNodeIdentity(n: Node)
    requires n.Element? ==> IsolateSiblings(n.children, None) == n.children
    ensures IsolateNode(n) == n
  {
  }

  /** No gap on either side of the first node, which stays, and the rest
      left alone: the siblings are left alone. */
  lemma IsolateIdentityJoin(s: seq<Node>, prev: Option<Node>)
    requires s != [] && IsolateNode(s[0]) == s[0]
    requires !(IsHeading(s[0]) && StringNeighbour(prev))
    requires !(IsHeading(s[0]) && |s| > 1 && IsNonEmptyString(s[1]))
    requires IsolateSiblings(s[1..], Some(s[0])) == s[1..]
    ensures IsolateSiblings(s, prev) == s
  {
    IsolateUnfold(s, prev);
    assert GapIf(false) == [];
    assert [s[0]] + s[1..] == s;
  }

  /** Where no heading touches a non-empty string (and none is waiting
      for the node before), the fourth pass changes nothing. */
  lemma {:induction false} IsolateIdentity(s: seq<Node>, prev: Option<Node>)
    requires PairTotal(s, Touching) == 0
    requires !(s != [] && IsHeading(s[0]) && StringNeighbour(prev))
    ensures IsolateSiblings(s, prev) == s
    decreases s
  {
    if s != [] {
      var n := s[0];
      IsolateIdentity(s[1..], Some(n));
      if n.Element? {
        IsolateIdentity(n.children, None);
      }
      IsolateNodeIdentity(n);
      IsolateIdentityJoin(s, prev);
    }
  }

  /** The fourth pass over a whole document. */
  function IsolateHeadings(doc: seq<Node>): (r: seq<Node>)
    ensures Pairs(r, Spaced)
    ensures Count(r, IsString) == Count(doc, IsString) + PairTotal(doc, Touching)
    ensures Prune(r, IsString) == Prune(doc, IsString)
    ensures Keeps(doc, r)
  {
    IsolateSpaced(doc, None);
    IsolateCount(doc, None);
    IsolatePrune(doc, None);
    IsolateKeeps(doc, None);
    IsolateSiblings(doc, None)
  }

  /** A childless heading after a non-empty string gets a gap in front. */
  lemma IsolateLastHeading(x: Node, h: Node)
    requires IsNonEmptyString(x) && IsHeading(h) && h.children == []
    ensures IsolateSiblings([h], Some(x)) == [Gap, h]
  {
    IsolateUnfold([h], Some(x));
    assert IsolateSiblings([], None) == [];
    assert IsolateNode(h) == h;
    assert GapIf(true) == [Gap] && GapIf(false) == [];
  }

  /** A non-heading without children in front of other siblings is copied. */
  lemma IsolatePlainFirst(x: Node, prev: Option<Node>, rest: seq<Node>)
    requires !x.Element?
    ensures IsolateSiblings([x] + rest, prev) == [x] + IsolateSiblings(rest, Some(x))
  {
    IsolateUnfold([x] + rest, prev);
    assert ([x] + rest)[1..] == rest;
    assert GapIf(false) == [];
  }

  /** The fourth pass twice on a string followed by a heading: the gap
      inserted by the first run is itself a non-empty string next to the
      heading, so the second run inserts another. */
  lemma IsolateTwice()
    ensures var h := Element("h1", map[], []);
            && IsolateSiblings([Text("a"), h], None) == [Text("a"), Gap, h]
            && IsolateSiblings([Text("a"), Gap, h], None) == [Text("a"), Gap, Gap, h]
  {
    var h := Element("h1", map[], []);
    var a := Text("a");
    IsolateLastHeading(a, h);
    IsolateLastHeading(Gap, h);
    IsolatePlainFirst(a, None, [h]);
    IsolatePlainFirst(Gap, Some(a), [h]);
    IsolatePlainFirst(a, None, [Gap, h]);
    assert [a] + [h] == [a, h];
    assert [Gap] + [h] == [Gap, h];
    assert [a] + [Gap, h] == [a, Gap, h];
  }

  // ---------------------------------------------------------------------
  // The four passes together.
  // ---------------------------------------------------------------------

  /** `clean_html`: the passes in the order the method runs them. What is
      left is free of non-content nodes, every heading is kept apart from
      its non-empty string neighbours, and the visible text is the text of
      the page once its scripts, styles, links, metas and comments are gone. */
  function CleanHtml(doc: seq<Node>): (r: seq<Node>)
    ensures ContentOnly(r)
    ensures Pairs(r, Spaced)
    ensures StrippedText(r) == StrippedText(RemoveNonContent(doc))
  {
    var d1 := RemoveNonContent(doc);
    var d2 := AddCaptionBreaks(d1);
    var d3 := ElideBlank(d2);
    var d4 := IsolateHeadings(d3);
    KeepsTrans(d1, d2, d3);
    KeepsTrans(d1, d3, d4);
    d4
  }

  /** On a clean page with a heading and no figcaption, only the fourth
      pass acts. */
  lemma CleanHeadingPage(doc: seq<Node>)
    requires ContentOnly(doc) && All(doc, Not(IsFigcaption)) && Any(doc, IsHeading)
    ensures CleanHtml(doc) == IsolateSiblings(doc, None)
  {
    CaptionBreaksIdentity(doc, 0);
  }

  /** A word, then a heading: `clean_html` puts one gap between them. */
  lemma CleanWordHeading()
    ensures var h := Element("h1", map[], []);
            CleanHtml([Text("a"), h]) == [Text("a"), Gap, h]
  {
    var h := Element("h1", map[], []);
    var a := Text("a");
    assert !Removable(h) && !IsFigcaption(h) && IsHeading(h) by {
      assert "h1" !in NonContentNames && "h1" != "figcaption" && "h1" in HeadingNames;
    }
    assert !Removable(a) && !IsFigcaption(a);
    AllOne(a, Not(Removable));
    AllOne(h, Not(Removable));
    AllOne(a, Not(IsFigcaption));
    AllOne(h, Not(IsFigcaption));
    AllConcat([a], [h], Not(Removable));
    AllConcat([a], [h], Not(IsFigcaption));
    CountOne(h, IsHeading);
    CountConcat([a], [h], IsHeading);
    assert [a] + [h] == [a, h];
    CleanHeadingPage([a, h]);
    IsolateTwice();
  }

  /** A word, a gap, then a heading: `clean_html` adds a second gap. */
  lemma CleanWordGapHeading()
    ensures var h := Element("h1", map[], []);
            CleanHtml([Text("a"), Gap, h]) == [Text("a"), Gap, Gap, h]
  {
    var h := Element("h1", map[], []);
    var a := Text("a");
    var once := [a, Gap, h];
    assert !Removable(h) && !IsFigcaption(h) && IsHeading(h) by {
      assert "h1" !in NonContentNames && "h1" != "figcaption" && "h1" in HeadingNames;
    }
    assert !Removable(a) && !Removable(Gap) && !IsFigcaption(a) && !IsFigcaption(Gap);
    AllOne(a, Not(Removable));
    AllOne(Gap, Not(Removable));
    AllOne(h, Not(Removable));
    AllOne(a, Not(IsFigcaption));
    AllOne(Gap, Not(IsFigcaption));
    AllOne(h, Not(IsFigcaption));
    AllConcat([a], [Gap], Not(Removable));
    AllConcat([a], [Gap], Not(IsFigcaption));
    AllConcat([a, Gap], [h], Not(Removable));
    AllConcat([a, Gap], [h], Not(IsFigcaption));
    CountOne(h, IsHeading);
    CountConcat([a, Gap], [h], IsHeading);
    assert [a] + [Gap] == [a, Gap] && [a, Gap] + [h] == once;
    CleanHeadingPage(once);
    IsolateTwice();
  }

  /** Cleaning a page twice is not cleaning it once: a string followed by
      a heading gets one gap per run. */
  lemma CleanNotIdempotent()
    ensures var doc := [Text("a"), Element("h1", map[], [])];
            CleanHtml(CleanHtml(doc)) != CleanHtml(doc)
  {
    var h := Element("h1", map[], []);
    CleanWordHeading();
    CleanWordGapHeading();
    assert |[Text("a"), Gap, Gap, h]| != |[Text("a"), Gap, h]|;
  }
}
