/**
  The parsed page as an immutable tree. A document is the sequence of
  top-level nodes under the parser's root; "document order" is pre-order.
  Every element is a tag name (lower case, as the HTML parser reports it),
  an attribute map and its children; strings are text or comments.
 */
module Dom {
  import opened Options
  import opened PyStr

  datatype Node =
    | Element(name: string, attrs: map<string, string>, children: seq<Node>)
    | Text(text: string)
    | Comment(text: string)

  const HeadingNames: set<string> := {"h1", "h2", "h3", "h4", "h5", "h6"}

  predicate IsNamed(n: Node, name: string)
  {
    n.Element? && n.name == name
  }

  predicate IsHeading(n: Node)
  {
    n.Element? && n.name in HeadingNames
  }

  predicate IsImg(n: Node)
  {
    IsNamed(n, "img")
  }

  predicate IsBr(n: Node)
  {
    IsNamed(n, "br")
  }

  /** A Python string node: comments are strings too (`Comment` subclasses `str`). */
  predicate IsString(n: Node)
  {
    n.Text? || n.Comment?
  }

  /** A string node that is truthy in Python, that is, not the empty string. */
  predicate IsNonEmptyString(n: Node)
  {
    IsString(n) && n.text != []
  }

  /** A freshly created `<br>` tag. */
  const Br: Node := Element("br", map[], [])

  /** The negation of a node predicate. */
  function Not(p: Node -> bool): Node -> bool
  {
    n => !p(n)
  }

  /** The sum of `w` over every node of the forest, descendants included. */
  function Total(s: seq<Node>, w: Node -> nat): nat
    decreases s
  {
    if s == [] then 0
    else
      var below := match s[0] case Element(_, _, cs) => Total(cs, w) case _ => 0;
      w(s[0]) + below + Total(s[1..], w)
  }

  /** Weight one for the nodes that satisfy `p`. */
  function Indicator(p: Node -> bool): Node -> nat
  {
    n => if p(n) then 1 else 0
  }

  /** How many nodes of the forest, descendants included, satisfy `p`. */
  function Count(s: seq<Node>, p: Node -> bool): nat
  {
    Total(s, Indicator(p))
  }

  /** `p` holds of every node of the forest, descendants included. */
  predicate All(s: seq<Node>, p: Node -> bool)
    decreases s
  {
    || s == []
    || (&& p(s[0])
        && (match s[0] case Element(_, _, cs) => All(cs, p) case _ => true)
        && All(s[1..], p))
  }

  /** Some node of the forest, a descendant perhaps, satisfies `p`:
      what a `find_all` that returns a non-empty list finds. */
  predicate Any(s: seq<Node>, p: Node -> bool)
  {
    Count(s, p) > 0
  }

  /** A node without its children: what a test on the tag name, the
      attributes or the kind of string can see. */
  function Head(n: Node): Node
  {
    match n
    case Element(nm, a, _) => Element(nm, a, [])
    case other => other
  }

  /** The negation of a test on a node's head. */
  function NotAt(p: Node -> bool): Node -> bool
  {
    n => !p(Head(n))
  }

  /** The forest without the nodes whose head satisfies `p`, each taken
      out together with everything below it. */
  function Prune(s: seq<Node>, p: Node -> bool): (r: seq<Node>)
    ensures All(r, NotAt(p))
    decreases s
  {
    if s == [] then []
    else
      var rest := Prune(s[1..], p);
      if p(Head(s[0])) then rest
      else
        var kept := match s[0] case Element(nm, a, cs) => Element(nm, a, Prune(cs, p)) case other => other;
        assert Head(kept) == Head(s[0]);
        assert ([kept] + rest)[0] == kept && ([kept] + rest)[1..] == rest;
        [kept] + rest
  }

  /** `tag.get_text(strip=True)` over a forest: the stripped text strings,
      concatenated; comments carry no text. */
  function StrippedText(s: seq<Node>): string
    decreases s
  {
    if s == [] then []
    else
      var here := match s[0]
        case Element(_, _, cs) => StrippedText(cs)
        case Text(t) => Strip(t)
        case Comment(_) => [];
      here + StrippedText(s[1..])
  }

  lemma {:induction false} TotalConcat(a: seq<Node>, b: seq<Node>, w: Node -> nat)
    ensures Total(a + b, w) == Total(a, w) + Total(b, w)
    decreases a
  {
    if a == [] {
      assert a + b == b;
    } else {
      assert (a + b)[0] == a[0];
      assert (a + b)[1..] == a[1..] + b;
      TotalConcat(a[1..], b, w);
    }
  }

  lemma CountConcat(a: seq<Node>, b: seq<Node>, p: Node -> bool)
    ensures Count(a + b, p) == Count(a, p) + Count(b, p)
  {
    TotalConcat(a, b, Indicator(p));
  }

  lemma {:induction false} AllConcat(a: seq<Node>, b: seq<Node>, p: Node -> bool)
    ensures All(a + b, p) <==> All(a, p) && All(b, p)
    decreases a
  {
    if a == [] {
      assert a + b == b;
    } else {
      assert (a + b)[0] == a[0];
      assert (a + b)[1..] == a[1..] + b;
      AllConcat(a[1..], b, p);
    }
  }

  lemma {:induction false} StrippedTextConcat(a: seq<Node>, b: seq<Node>)
    ensures StrippedText(a + b) == StrippedText(a) + StrippedText(b)
    decreases a
  {
    if a == [] {
      assert a + b == b;
    } else {
      assert (a + b)[0] == a[0];
      assert (a + b)[1..] == a[1..] + b;
      StrippedTextConcat(a[1..], b);
    }
  }

  lemma {:induction false} PruneConcat(a: seq<Node>, b: seq<Node>, p: Node -> bool)
    ensures Prune(a + b, p) == Prune(a, p) + Prune(b, p)
    decreases a
  {
    if a == [] {
      assert a + b == b;
    } else {
      assert (a + b)[0] == a[0];
      assert (a + b)[1..] == a[1..] + b;
      PruneConcat(a[1..], b, p);
    }
  }

  /** Pruning removes something exactly when some node satisfies `p`. */
  lemma {:induction false} PruneIdentityIff(s: seq<Node>, p: Node -> bool)
    ensures Prune(s, p) == s <==> All(s, NotAt(p))
    decreases s
  {
    if s != [] {
      PruneIdentityIff(s[1..], p);
      var rest := Prune(s[1..], p);
      if p(Head(s[0])) {
        assert |rest| <= |s[1..]| by { PruneShrinks(s[1..], p); }
      } else {
        match s[0]
        case Element(nm, a, cs) =>
          PruneIdentityIff(cs, p);
          if Prune(s, p) == s {
            assert Prune(s, p)[0] == s[0];
            assert Prune(s, p)[1..] == rest;
          }
        case _ =>
          if Prune(s, p) == s {
            assert Prune(s, p)[1..] == rest;
          }
      }
    }
  }

  lemma {:induction false} PruneShrinks(s: seq<Node>, p: Node -> bool)
    ensures |Prune(s, p)| <= |s|
    decreases s
  {
    if s != [] {
      PruneShrinks(s[1..], p);
    }
  }

  /** A forest where `p` holds of no node has no node counted for `p`. */
  lemma {:induction false} AllNotCountZero(s: seq<Node>, p: Node -> bool)
    ensures All(s, Not(p)) <==> Count(s, p) == 0
    decreases s
  {
    if s != [] {
      AllNotCountZero(s[1..], p);
      match s[0]
      case Element(_, _, cs) => AllNotCountZero(cs, p);
      case _ =>
    }
  }

  /** `All` is monotone in its predicate. */
  lemma {:induction false} AllWeaken(s: seq<Node>, p: Node -> bool, q: Node -> bool)
    requires forall n :: p(n) ==> q(n)
    requires All(s, p)
    ensures All(s, q)
    decreases s
  {
    if s != [] {
      AllWeaken(s[1..], p, q);
      match s[0]
      case Element(_, _, cs) => AllWeaken(cs, p, q);
      case _ =>
    }
  }

  /** `Count` of a non-empty forest, split at its first node. */
  lemma CountCons(s: seq<Node>, p: Node -> bool)
    requires s != []
    ensures Count(s, p) == Count([s[0]], p) + Count(s[1..], p)
  {
    CountConcat([s[0]], s[1..], p);
    assert [s[0]] + s[1..] == s;
  }

  /** `Count` over a node, a middle part and a rest. */
  lemma CountBlock(n: Node, mid: seq<Node>, rest: seq<Node>, p: Node -> bool)
    ensures Count([n] + (mid + rest), p) == Count([n], p) + Count(mid, p) + Count(rest, p)
  {
    CountConcat([n], mid + rest, p);
    CountConcat(mid, rest, p);
  }

  /** `Count` of one node: the node itself and its descendants. */
  lemma CountOne(n: Node, p: Node -> bool)
    ensures Count([n], p) == (if p(n) then 1 else 0) + (if n.Element? then Count(n.children, p) else 0)
  {
    var s := [n];
    assert s[0] == n && s[1..] == [];
    assert Total(s[1..], Indicator(p)) == 0;
    assert Indicator(p)(n) == if p(n) then 1 else 0;
    match n
    case Element(_, _, cs) =>
      assert Total(s, Indicator(p)) == Indicator(p)(n) + Total(cs, Indicator(p)) + 0;
    case _ =>
      assert Total(s, Indicator(p)) == Indicator(p)(n) + 0 + 0;
  }

  /** `All` of one node: the node itself and its descendants. */
  lemma AllOne(n: Node, p: Node -> bool)
    ensures All([n], p) <==> p(n) && (n.Element? ==> All(n.children, p))
  {
    assert [n][1..] == [];
  }

  /** `StrippedText` of one node. */
  lemma StrippedTextOne(n: Node)
    ensures StrippedText([n]) == match n
      case Element(_, _, cs) => StrippedText(cs)
      case Text(t) => Strip(t)
      case Comment(_) => []
  {
    assert [n][1..] == [];
  }

  /** `Prune` of one node. */
  lemma PruneOne(n: Node, p: Node -> bool)
    ensures Prune([n], p) == if p(Head(n)) then [] else match n
      case Element(nm, a, cs) => [Element(nm, a, Prune(cs, p))]
      case other => [other]
  {
    assert [n][1..] == [];
  }

  /** The sibling reached from the start of `s` by stepping over truthy
      whitespace-only strings, as the loops `while next and
      isinstance(next, str) and not next.strip()` do; `None` when the
      siblings run out. An empty string stops the walk, being falsy. */
  function NextNonBlank(s: seq<Node>): Option<Node>
  {
    if s == [] then None
    else if IsNonEmptyString(s[0]) && IsBlank(s[0].text) then NextNonBlank(s[1..])
    else Some(s[0])
  }

  /** The sibling found is one of `s` and not a blank string, and one is
      found exactly when `s` holds a sibling that is not a blank string. */
  lemma {:induction false} NextNonBlankFacts(s: seq<Node>)
    ensures var r := NextNonBlank(s);
            && (r.Some? ==> r.value in s && !(IsNonEmptyString(r.value) && IsBlank(r.value.text)))
            && (r.Some? <==> exists i :: 0 <= i < |s| && !(IsNonEmptyString(s[i]) && IsBlank(s[i].text)))
    decreases |s|
  {
    if s != [] && IsNonEmptyString(s[0]) && IsBlank(s[0].text) {
      NextNonBlankFacts(s[1..]);
      assert forall i :: 1 <= i < |s| ==> s[i] == s[1..][i - 1];
    }
  }

  /** `s[i]` is the first sibling of `s` that is not a blank string. */
  predicate FirstNonBlankAt(s: seq<Node>, i: int)
  {
    && 0 <= i < |s|
    && !(IsNonEmptyString(s[i]) && IsBlank(s[i].text))
    && forall j :: 0 <= j < i ==> IsNonEmptyString(s[j]) && IsBlank(s[j].text)
  }

  /** The sibling found is the first that is not a blank string: every
      sibling before it is one. */
  lemma {:induction false} NextNonBlankFirst(s: seq<Node>)
    ensures var r := NextNonBlank(s);
            r.Some? ==> exists i :: FirstNonBlankAt(s, i) && r == Some(s[i])
    decreases |s|
  {
    if s != [] && IsNonEmptyString(s[0]) && IsBlank(s[0].text) {
      var t := s[1..];
      NextNonBlankFirst(t);
      if NextNonBlank(t).Some? {
        var i :| FirstNonBlankAt(t, i) && NextNonBlank(t) == Some(t[i]);
        forall j | 0 <= j < i + 1 ensures IsNonEmptyString(s[j]) && IsBlank(s[j].text) {
          if j > 0 { assert s[j] == t[j - 1]; }
        }
        assert s[i + 1] == t[i];
        assert FirstNonBlankAt(s, i + 1);
      }
    } else if s != [] {
      assert FirstNonBlankAt(s, 0);
    }
  }

  /** `ok` holds of every two adjacent siblings, at every level. */
  predicate Pairs(s: seq<Node>, ok: (Node, Node) -> bool)
    decreases s
  {
    || s == []
    || (&& (|s| == 1 || ok(s[0], s[1]))
        && (match s[0] case Element(_, _, cs) => Pairs(cs, ok) case _ => true)
        && Pairs(s[1..], ok))
  }

  /** The sum of `w` over every two adjacent siblings, at every level. */
  function PairTotal(s: seq<Node>, w: (Node, Node) -> nat): nat
    decreases s
  {
    if s == [] then 0
    else
      var here := if |s| > 1 then w(s[0], s[1]) else 0;
      var below := match s[0] case Element(_, _, cs) => PairTotal(cs, w) case _ => 0;
      here + below + PairTotal(s[1..], w)
  }

  /** `PairTotal` of a non-empty forest: the first pair, what lies under
      the first node, and the rest. */
  lemma PairTotalCons(s: seq<Node>, w: (Node, Node) -> nat)
    requires s != []
    ensures PairTotal(s, w)
         == (if |s| > 1 then w(s[0], s[1]) else 0)
            + (if s[0].Element? then PairTotal(s[0].children, w) else 0)
            + PairTotal(s[1..], w)
  {
  }

  lemma {:induction false} PairsConcat(a: seq<Node>, b: seq<Node>, ok: (Node, Node) -> bool)
    ensures Pairs(a + b, ok)
        <==> Pairs(a, ok) && Pairs(b, ok) && (a == [] || b == [] || ok(a[|a| - 1], b[0]))
    decreases a
  {
    if a == [] {
      assert a + b == b;
    } else {
      assert (a + b)[0] == a[0];
      assert (a + b)[1..] == a[1..] + b;
      PairsConcat(a[1..], b, ok);
      if |a| == 1 && b != [] {
        assert (a + b)[1] == b[0];
      } else if |a| > 1 {
        assert (a + b)[1] == a[1];
        assert a[1..][|a[1..]| - 1] == a[|a| - 1];
      }
    }
  }

  /** `Pairs` of one node: what is below it. */
  lemma PairsOne(n: Node, ok: (Node, Node) -> bool)
    ensures Pairs([n], ok) <==> (n.Element? ==> Pairs(n.children, ok))
  {
    assert [n][1..] == [];
  }
}
