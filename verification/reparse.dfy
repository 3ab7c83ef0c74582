/**
  The serialise-and-parse step of `Web2Markdown.convert`: the page that
  `process_html` returns as a string is parsed again before the heading
  and image loops run. Serialising writes neighbouring strings one after
  the other and the parser reads them back as one string; an empty
  string leaves nothing to read back. Outside `pre` and `textarea`, a
  string read back that is all ASCII white space is stored as one
  newline or one space.
 */
module Reparse {
  import opened Dom
  import opened PyStr

  /** Two siblings a re-parse would not join: not both plain strings. */
  predicate Separate(a: Node, b: Node)
  {
    !(a.Text? && b.Text?)
  }

  predicate IsEmptyText(n: Node)
  {
    n.Text? && n.text == []
  }

  predicate IsPlainText(n: Node)
  {
    n.Text?
  }

  /** A forest as the parser builds it: no empty string and no two
      strings side by side, at any level. */
  predicate Parsed(s: seq<Node>)
  {
    Pairs(s, Separate) && All(s, Not(IsEmptyText))
  }

  /** The characters of the plain strings of a forest in document order:
      what serialising writes between the tags. */
  function RawText(s: seq<Node>): string
    decreases s
  {
    if s == [] then []
    else
      var here := match s[0]
        case Element(_, _, cs) => RawText(cs)
        case Text(t) => t
        case Comment(_) => [];
      here + RawText(s[1..])
  }

  /** A node put in front of siblings that were already read back: an
      empty string vanishes, a string joins a string that follows it. */
  function Glue(x: Node, g: seq<Node>): seq<Node>
  {
    if IsEmptyText(x) then g
    else if x.Text? && g != [] && g[0].Text? then [Text(x.text + g[0].text)] + g[1..]
    else [x] + g
  }

  /** The forest the parser gives back for the serialised forest `s`. */
  function MergeStrings(s: seq<Node>): seq<Node>
    decreases s, 1
  {
    if s == [] then [] else Glue(MergeNode(s[0]), MergeStrings(s[1..]))
  }

  function MergeNode(n: Node): (r: Node)
    ensures Head(r) == Head(n)
    decreases n, 0
  {
    match n
    case Element(nm, a, cs) => Element(nm, a, MergeStrings(cs))
    case other => other
  }

  // ---------------------------------------------------------------------
  // Helpers about forests of one node.
  // ---------------------------------------------------------------------

  lemma {:induction false} RawTextConcat(a: seq<Node>, b: seq<Node>)
    ensures RawText(a + b) == RawText(a) + RawText(b)
    decreases a
  {
    if a == [] {
      assert a + b == b;
    } else {
      assert (a + b)[0] == a[0] && (a + b)[1..] == a[1..] + b;
      RawTextConcat(a[1..], b);
    }
  }

  lemma RawTextOne(n: Node)
    ensures RawText([n]) == match n
      case Element(_, _, cs) => RawText(cs)
      case Text(t) => t
      case Comment(_) => []
  {
    assert [n][1..] == [];
  }

  /** The conditions of `Parsed` on a forest `[x] + g`. */
  lemma ParsedCons(x: Node, g: seq<Node>)
    ensures Parsed([x] + g)
        <==> && !IsEmptyText(x) && (x.Element? ==> Parsed(x.children)) && Parsed(g)
             && (g == [] || Separate(x, g[0]))
  {
    PairsConcat([x], g, Separate);
    PairsOne(x, Separate);
    AllConcat([x], g, Not(IsEmptyText));
    AllOne(x, Not(IsEmptyText));
    assert Not(IsEmptyText)(x) == !IsEmptyText(x);
    if x.Element? {
      assert Parsed(x.children) <==> Pairs(x.children, Separate) && All(x.children, Not(IsEmptyText));
    }
  }

  /** One step of `MergeStrings` on a forest written as `[x] + g`. */
  lemma MergeCons(x: Node, g: seq<Node>)
    ensures MergeStrings([x] + g) == Glue(MergeNode(x), MergeStrings(g))
  {
    assert ([x] + g)[0] == x && ([x] + g)[1..] == g;
  }

  /** A tag with no children is read back as it is. */
  lemma BareTag(h: Node, keep: bool)
    requires h.Element? && h.children == []
    ensures MergeNode(h) == h && MergeStrings([h]) == [h]
    ensures CollapseNode(h, keep) == h && CollapseForest([h], keep) == [h]
  {
    assert [h][1..] == [];
  }

  // ---------------------------------------------------------------------
  // What the re-parse promises.
  // ---------------------------------------------------------------------

  /** Putting a node in front keeps a read-back forest read back. */
  lemma GlueParsed(x: Node, g: seq<Node>)
    requires Parsed(g) && (x.Element? ==> Parsed(x.children))
    ensures Parsed(Glue(x, g))
  {
    if IsEmptyText(x) {
    } else if x.Text? && g != [] && g[0].Text? {
      var t := Text(x.text + g[0].text);
      assert g == [g[0]] + g[1..];
      ParsedCons(g[0], g[1..]);
      ParsedCons(t, g[1..]);
    } else {
      ParsedCons(x, g);
    }
  }

  /** The parser gives back no empty string and no two strings side by
      side. */
  lemma {:induction false} MergeParsed(s: seq<Node>)
    ensures Parsed(MergeStrings(s))
    decreases s
  {
    if s != [] {
      MergeParsed(s[1..]);
      if s[0].Element? {
        MergeParsed(s[0].children);
      }
      GlueParsed(MergeNode(s[0]), MergeStrings(s[1..]));
    }
  }

  /** Two strings joined into one hold the characters of both. */
  lemma JoinRawText(a: string, b: string, rest: seq<Node>)
    ensures RawText([Text(a + b)] + rest) == a + RawText([Text(b)] + rest)
  {
    RawTextConcat([Text(a + b)], rest);
    RawTextConcat([Text(b)], rest);
    RawTextOne(Text(a + b));
    RawTextOne(Text(b));
  }

  lemma GlueRawText(x: Node, g: seq<Node>)
    ensures RawText(Glue(x, g)) == RawText([x]) + RawText(g)
  {
    RawTextOne(x);
    if IsEmptyText(x) {
      assert RawText([x]) == [];
      assert RawText([x]) + RawText(g) == RawText(g);
    } else if x.Text? && g != [] && g[0].Text? {
      assert g == [Text(g[0].text)] + g[1..];
      JoinRawText(x.text, g[0].text, g[1..]);
    } else {
      RawTextConcat([x], g);
    }
  }

  /** Joining neighbouring strings and dropping empty ones keeps the
      characters of the text, in order. */
  lemma {:induction false} MergeRawText(s: seq<Node>)
    ensures RawText(MergeStrings(s)) == RawText(s)
    decreases s
  {
    if s != [] {
      var x := MergeNode(s[0]);
      MergeRawText(s[1..]);
      GlueRawText(x, MergeStrings(s[1..]));
      RawTextOne(s[0]);
      RawTextOne(x);
      if s[0].Element? {
        MergeRawText(s[0].children);
      }
      RawTextConcat([s[0]], s[1..]);
      assert s == [s[0]] + s[1..];
    }
  }

  /** A forest the parser built is read back as it is. */
  lemma {:induction false} MergeIdentity(s: seq<Node>)
    requires Parsed(s)
    ensures MergeStrings(s) == s
    decreases s
  {
    if s != [] {
      assert s == [s[0]] + s[1..];
      ParsedCons(s[0], s[1..]);
      MergeIdentity(s[1..]);
      if s[0].Element? {
        MergeIdentity(s[0].children);
      }
      assert MergeNode(s[0]) == s[0];
    }
  }

  /** Reading back twice is reading back once. */
  lemma MergeIdempotent(s: seq<Node>)
    ensures MergeStrings(MergeStrings(s)) == MergeStrings(s)
  {
    MergeParsed(s);
    MergeIdentity(MergeStrings(s));
  }

  lemma GluePrune(x: Node, g: seq<Node>)
    ensures Prune(Glue(x, g), IsPlainText) == Prune([x], IsPlainText) + Prune(g, IsPlainText)
  {
    PruneOne(x, IsPlainText);
    if IsEmptyText(x) {
      assert IsPlainText(Head(x));
      assert [] + Prune(g, IsPlainText) == Prune(g, IsPlainText);
    } else if x.Text? && g != [] && g[0].Text? {
      var t := Text(x.text + g[0].text);
      assert g == [g[0]] + g[1..];
      PruneConcat([g[0]], g[1..], IsPlainText);
      PruneConcat([t], g[1..], IsPlainText);
      PruneOne(g[0], IsPlainText);
      PruneOne(t, IsPlainText);
      assert IsPlainText(Head(x)) && IsPlainText(Head(g[0])) && IsPlainText(Head(t));
    } else {
      PruneConcat([x], g, IsPlainText);
    }
  }

  /** Apart from the strings, the re-parse gives back the tree it was
      given: every tag with its attributes, every comment, in place. */
  lemma {:induction false} MergePrune(s: seq<Node>)
    ensures Prune(MergeStrings(s), IsPlainText) == Prune(s, IsPlainText)
    decreases s
  {
    if s != [] {
      var n := s[0];
      var x := MergeNode(n);
      MergePrune(s[1..]);
      GluePrune(x, MergeStrings(s[1..]));
      PruneOne(n, IsPlainText);
      PruneOne(x, IsPlainText);
      if n.Element? {
        MergePrune(n.children);
      }
      PruneConcat([n], s[1..], IsPlainText);
      assert s == [n] + s[1..];
    }
  }

  lemma GlueAll(x: Node, g: seq<Node>, p: Node -> bool)
    requires forall t: string :: p(Text(t))
    requires All([x], p) && All(g, p)
    ensures All(Glue(x, g), p)
  {
    if IsEmptyText(x) {
    } else if x.Text? && g != [] && g[0].Text? {
      var t := Text(x.text + g[0].text);
      assert g == [g[0]] + g[1..];
      AllConcat([g[0]], g[1..], p);
      AllConcat([t], g[1..], p);
      AllOne(t, p);
    } else {
      AllConcat([x], g, p);
    }
  }

  /** A property of heads that every string has, and every other node
      of the forest, holds of every node read back. */
  lemma {:induction false} MergeAll(s: seq<Node>, p: Node -> bool)
    requires forall t: string :: p(Text(t))
    requires forall n :: p(Head(n)) == p(n)
    requires All(s, p)
    ensures All(MergeStrings(s), p)
    decreases s
  {
    if s != [] {
      var n := s[0];
      var x := MergeNode(n);
      assert s == [n] + s[1..];
      AllConcat([n], s[1..], p);
      AllOne(n, p);
      MergeAll(s[1..], p);
      if n.Element? {
        MergeAll(n.children, p);
      }
      assert p(Head(x)) == p(x) && p(Head(n)) == p(n);
      AllOne(x, p);
      GlueAll(x, MergeStrings(s[1..]), p);
    }
  }

  // ---------------------------------------------------------------------
  // Blank strings: the parser stores a string of white space as one
  // character.
  // ---------------------------------------------------------------------

  /** The characters the parser counts as ASCII white space: space, tab,
      line feed, form feed and carriage return. */
  predicate IsAsciiSpace(c: char)
  {
    c == ' ' || c == '\t' || c == '\n' || c == '\r' || c as int == 0x0C
  }

  predicate IsAsciiBlank(t: string)
  {
    forall i :: 0 <= i < |t| ==> IsAsciiSpace(t[i])
  }

  /** The tags inside which the parser keeps white space as written. */
  predicate KeepsSpace(name: string)
  {
    name == "pre" || name == "textarea"
  }

  /** A whole string as the parser stores it: unless `keep` (inside `pre`
      or `textarea`), one made only of ASCII white space becomes a single
      newline when it holds one, and a single space otherwise. */
  function Collapse(t: string, keep: bool): string
  {
    if keep || !IsAsciiBlank(t) then t
    else if '\n' in t then "\n"
    else " "
  }

  /** Every string of a forest as the parser stores it; `keep` says the
      forest lies inside `pre` or `textarea`. */
  function CollapseForest(s: seq<Node>, keep: bool): (r: seq<Node>)
    ensures |r| == |s|
    decreases s, 1
  {
    if s == [] then [] else [CollapseNode(s[0], keep)] + CollapseForest(s[1..], keep)
  }

  function CollapseNode(n: Node, keep: bool): (r: Node)
    ensures if n.Text? then r.Text? else Head(r) == Head(n)
    decreases n, 0
  {
    match n
    case Element(nm, a, cs) => Element(nm, a, CollapseForest(cs, keep || KeepsSpace(nm)))
    case Text(t) => Text(Collapse(t, keep))
    case Comment(_) => n
  }

  /** One step of `CollapseForest` on a forest written as `[x] + g`. */
  lemma CollapseCons(x: Node, g: seq<Node>, keep: bool)
    ensures CollapseForest([x] + g, keep) == [CollapseNode(x, keep)] + CollapseForest(g, keep)
  {
    assert ([x] + g)[0] == x && ([x] + g)[1..] == g;
  }

  /** The forest the parser gives back for the serialised forest `s`:
      neighbouring strings joined, empty strings gone, blank strings
      collapsed. */
  function ReadBack(s: seq<Node>): seq<Node>
  {
    CollapseForest(MergeStrings(s), false)
  }

  lemma AsciiBlankIsBlank(t: string)
    requires IsAsciiBlank(t)
    ensures IsBlank(t)
  {
    forall i | 0 <= i < |t| ensures IsSpace(t[i]) {
      assert IsAsciiSpace(t[i]);
    }
  }

  /** A collapsed string is blank, holds a newline and strips to the same
      text exactly when the original does; a blank string outside `pre`
      and `textarea` shrinks to one character, and any other string is
      kept. */
  lemma CollapseFacts(t: string, keep: bool)
    ensures var r := Collapse(t, keep);
            && (IsAsciiBlank(r) <==> IsAsciiBlank(t))
            && ('\n' in r <==> '\n' in t)
            && Strip(r) == Strip(t)
            && (t != [] ==> r != [] && |r| <= |t|)
            && (!keep && IsAsciiBlank(t) ==> |r| == 1)
            && (keep || !IsAsciiBlank(t) ==> r == t)
  {
    var r := Collapse(t, keep);
    if !keep && IsAsciiBlank(t) {
      assert IsAsciiBlank(r) by {
        assert r[0] == '\n' || r[0] == ' ';
      }
      if t != [] {
        assert t[0] in t;
      }
      AsciiBlankIsBlank(t);
      AsciiBlankIsBlank(r);
      StripEmptyIffBlank(t);
      StripEmptyIffBlank(r);
    }
  }

  /** Inside `pre` and `textarea` nothing is collapsed. */
  lemma {:induction false} CollapseKept(s: seq<Node>)
    ensures CollapseForest(s, true) == s
    decreases s
  {
    if s != [] {
      CollapseKept(s[1..]);
      if s[0].Element? {
        CollapseKept(s[0].children);
      }
      assert s == [s[0]] + s[1..];
    }
  }

  /** The collapse keeps the stripped text of every part of the page. */
  lemma {:induction false} CollapseStripped(s: seq<Node>, keep: bool)
    ensures StrippedText(CollapseForest(s, keep)) == StrippedText(s)
    decreases s
  {
    if s != [] {
      var n := s[0];
      var x := CollapseNode(n, keep);
      var r := CollapseForest(s, keep);
      assert r[0] == x && r[1..] == CollapseForest(s[1..], keep);
      CollapseStripped(s[1..], keep);
      match n
      case Element(nm, a, cs) =>
        CollapseStripped(cs, keep || KeepsSpace(nm));
      case Text(t) =>
        CollapseFacts(t, keep);
      case Comment(_) =>
    }
  }

  /** Apart from the strings, the collapse gives back the tree it was
      given. */
  lemma {:induction false} CollapsePrune(s: seq<Node>, keep: bool)
    ensures Prune(CollapseForest(s, keep), IsPlainText) == Prune(s, IsPlainText)
    decreases s
  {
    if s != [] {
      var n := s[0];
      var x := CollapseNode(n, keep);
      var r := CollapseForest(s, keep);
      assert r == [x] + CollapseForest(s[1..], keep);
      CollapsePrune(s[1..], keep);
      PruneConcat([x], CollapseForest(s[1..], keep), IsPlainText);
      PruneConcat([n], s[1..], IsPlainText);
      PruneOne(n, IsPlainText);
      PruneOne(x, IsPlainText);
      if n.Element? {
        CollapsePrune(n.children, keep || KeepsSpace(n.name));
      }
      assert s == [n] + s[1..];
    }
  }

  /** A forest the parser built stays one after the collapse: no string
      becomes empty, and strings stay strings. */
  lemma {:induction false} CollapseParsed(s: seq<Node>, keep: bool)
    requires Parsed(s)
    ensures Parsed(CollapseForest(s, keep))
    decreases s
  {
    if s != [] {
      var n := s[0];
      var x := CollapseNode(n, keep);
      var g := CollapseForest(s[1..], keep);
      assert s == [n] + s[1..];
      assert CollapseForest(s, keep) == [x] + g;
      ParsedCons(n, s[1..]);
      CollapseParsed(s[1..], keep);
      if n.Element? {
        CollapseParsed(n.children, keep || KeepsSpace(n.name));
      }
      if n.Text? {
        CollapseFacts(n.text, keep);
      }
      if s[1..] != [] {
        assert g[0] == CollapseNode(s[1..][0], keep);
      }
      ParsedCons(x, g);
    }
  }

  /** Collapsing twice is collapsing once. */
  lemma {:induction false} CollapseIdempotent(s: seq<Node>, keep: bool)
    ensures CollapseForest(CollapseForest(s, keep), keep) == CollapseForest(s, keep)
    decreases s
  {
    if s != [] {
      var n := s[0];
      var r := CollapseForest(s, keep);
      assert r[0] == CollapseNode(n, keep) && r[1..] == CollapseForest(s[1..], keep);
      CollapseIdempotent(s[1..], keep);
      match n
      case Element(nm, a, cs) =>
        CollapseIdempotent(cs, keep || KeepsSpace(nm));
      case Text(t) =>
        CollapseFacts(t, keep);
        CollapseFacts(Collapse(t, keep), keep);
      case Comment(_) =>
    }
  }

  /** A property of heads that every string has, and every other node of
      the forest, holds of every node after the collapse. */
  lemma {:induction false} CollapseAll(s: seq<Node>, keep: bool, p: Node -> bool)
    requires forall t: string :: p(Text(t))
    requires forall n :: p(Head(n)) == p(n)
    requires All(s, p)
    ensures All(CollapseForest(s, keep), p)
    decreases s
  {
    if s != [] {
      var n := s[0];
      var x := CollapseNode(n, keep);
      assert s == [n] + s[1..];
      AllConcat([n], s[1..], p);
      AllOne(n, p);
      CollapseAll(s[1..], keep, p);
      if n.Element? {
        CollapseAll(n.children, keep || KeepsSpace(n.name), p);
      }
      assert p(Head(x)) == p(x) && p(Head(n)) == p(n);
      AllOne(x, p);
      AllConcat([x], CollapseForest(s[1..], keep), p);
    }
  }

  /** What reading back promises: a parsed forest with the tags and
      comments of `s` in place, whose strings hold the characters of the
      strings of `s` once neighbours are joined, up to the collapse of
      blank strings, which keeps the stripped text. */
  lemma ReadBackFacts(s: seq<Node>)
    ensures var m := MergeStrings(s);
            var r := ReadBack(s);
            && Parsed(r)
            && Prune(r, IsPlainText) == Prune(s, IsPlainText)
            && RawText(m) == RawText(s)
            && StrippedText(r) == StrippedText(m)
  {
    var m := MergeStrings(s);
    MergeParsed(s);
    CollapseParsed(m, false);
    MergePrune(s);
    CollapsePrune(m, false);
    MergeRawText(s);
    CollapseStripped(m, false);
  }

  /** Reading back twice is reading back once. */
  lemma ReadBackIdempotent(s: seq<Node>)
    ensures ReadBack(ReadBack(s)) == ReadBack(s)
  {
    var m := MergeStrings(s);
    MergeParsed(s);
    CollapseParsed(m, false);
    MergeIdentity(ReadBack(s));
    CollapseIdempotent(m, false);
  }

  /** A property of heads that every string has holds of the read-back
      forest when it holds of the forest. */
  lemma ReadBackAll(s: seq<Node>, p: Node -> bool)
    requires forall t: string :: p(Text(t))
    requires forall n :: p(Head(n)) == p(n)
    requires All(s, p)
    ensures All(ReadBack(s), p)
  {
    MergeAll(s, p);
    CollapseAll(MergeStrings(s), false, p);
  }
}
