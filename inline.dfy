/**
 * The inline emphasis formatter of the chat message renderer
 * (`parseInlineMarkdown`). It scans one line with the global regular
 * expression
 *
 *   (\*\*\*|___)(.+?)\1 | (\*\*|__)(.+?)\3 | (\*|_)(.+?)\5 | (~~)(.+?)\7
 *
 * whose semantics are written out below: the leftmost start position wins,
 * then the alternatives in their listed order, then the shortest body; the
 * body is non-empty, holds no line terminator (what `.` excludes), and is
 * closed by the same marker that opened it. Text between matches becomes a
 * text node, each body is formatted again recursively, and scanning resumes
 * right after the closing marker.
 */
module InlineMarkdown {
  import opened Wrappers
  import opened JsText

  /** The four alternatives of the regular expression, in the order they are tried. */
  datatype Emphasis = BoldItalic | Bold | Italic | Strike

  /**
   * An inline node. A span keeps the marker character it was opened with
   * (`*` or `_`, or `~` for strike-through), which the rendered markup drops,
   * so that the tree can be flattened back to its source text.
   */
  datatype Inline = Text(text: string) | Span(kind: Emphasis, mark: char, children: seq<Inline>)

  /** Position of an alternative in the regular expression. */
  function Rank(k: Emphasis): nat
  {
    match k
    case BoldItalic => 0
    case Bold => 1
    case Italic => 2
    case Strike => 3
  }

  /** Length of the opening (and closing) marker of an alternative. */
  function Width(k: Emphasis): nat
  {
    match k
    case BoldItalic => 3
    case Bold => 2
    case Italic => 1
    case Strike => 2
  }

  /** The characters an alternative's marker may be made of. */
  predicate IsMarkChar(k: Emphasis, c: char)
  {
    if k == Strike then c == '~' else c == '*' || c == '_'
  }

  /** The opening and closing marker of a span. */
  function Marker(k: Emphasis, mark: char): (r: string)
    ensures |r| == Width(k)
  {
    seq(Width(k), _ => mark)
  }

  /** `w` copies of `mark` stand in `text` at position `p`. */
  predicate RunAt(text: string, p: nat, mark: char, w: nat)
  {
    p + w <= |text| && forall t :: p <= t < p + w ==> text[t] == mark
  }

  /**
   * A match of one alternative: the opener starts at `start`, the body is
   * `text[start + Width(kind) .. bodyEnd]` and the closer ends at
   * `bodyEnd + Width(kind)`.
   */
  datatype Match = Match(kind: Emphasis, mark: char, start: nat, bodyEnd: nat)
  {
    function BodyStart(): nat { start + Width(kind) }
    function End(): nat { bodyEnd + Width(kind) }
  }

  /** The alternative `m.kind` matches `text` at `m.start` with that body (not necessarily the shortest). */
  predicate IsMatch(text: string, m: Match)
  {
    && m.BodyStart() < m.bodyEnd
    && m.End() <= |text|
    && IsMarkChar(m.kind, m.mark)
    && RunAt(text, m.start, m.mark, Width(m.kind))
    && RunAt(text, m.bodyEnd, m.mark, Width(m.kind))
    && NoLineTerminator(text, m.BodyStart(), m.bodyEnd)
  }

  /** No shorter body closes the match: what the lazy `(.+?)` chooses. */
  predicate IsShortest(text: string, m: Match)
  {
    forall e :: m.BodyStart() < e < m.bodyEnd ==> !RunAt(text, e, m.mark, Width(m.kind))
  }

  /**
   * The lazy body search: the first closer at or after `e`, as long as no
   * line terminator intervenes. `text[b..e]` is the part of the body seen so far.
   */
  function CloseFrom(text: string, mark: char, w: nat, b: nat, e: nat): (r: Option<nat>)
    requires b < e <= |text|
    ensures r.Some? ==> e <= r.value && r.value + w <= |text|
    decreases |text| - e
  {
    if RunAt(text, e, mark, w) then Some(e)
    else if e < |text| && !IsLineTerminator(text[e]) then CloseFrom(text, mark, w, b, e + 1)
    else None
  }

  /**
   * The closer found is the first one after `e`, with no line terminator
   * before it; when none is found, no closer is reachable without crossing one.
   */
  lemma {:induction false} CloseFromSpec(text: string, mark: char, w: nat, b: nat, e: nat)
    requires b < e <= |text|
    requires NoLineTerminator(text, b, e)
    ensures CloseFrom(text, mark, w, b, e).Some? ==> var r := CloseFrom(text, mark, w, b, e).value;
      && RunAt(text, r, mark, w) && NoLineTerminator(text, b, r)
      && forall e' :: e <= e' < r ==> !RunAt(text, e', mark, w)
    ensures CloseFrom(text, mark, w, b, e).None? ==>
      forall e' :: e <= e' <= |text| && NoLineTerminator(text, b, e') ==> !RunAt(text, e', mark, w)
    decreases |text| - e
  {
    if !RunAt(text, e, mark, w) && e < |text| && !IsLineTerminator(text[e]) {
      CloseFromSpec(text, mark, w, b, e + 1);
    }
  }

  /** Whether alternative `k` can open at position `p`: its marker, then a first body character. */
  predicate Opens(text: string, p: nat, k: Emphasis)
  {
    p < |text| && IsMarkChar(k, text[p]) && RunAt(text, p, text[p], Width(k))
    && p + Width(k) < |text| && !IsLineTerminator(text[p + Width(k)])
  }

  /** Alternative `k` tried at position `p`: the shortest match it has there, if any. */
  function AltAt(text: string, p: nat, k: Emphasis): (r: Option<Match>)
    ensures r.Some? ==> r.value.kind == k && r.value.start == p && Fits(text, r.value)
  {
    if Opens(text, p, k) then
      match CloseFrom(text, text[p], Width(k), p + Width(k), p + Width(k) + 1)
      case Some(e) => Some(Match(k, text[p], p, e))
      case None => None
    else None
  }

  /** What a match says about the characters at its start. */
  lemma MatchFacts(text: string, m: Match)
    ensures IsMatch(text, m) ==>
      && m.start < |text| && text[m.start] == m.mark && RunAt(text, m.start, text[m.start], Width(m.kind))
      && m.BodyStart() < |text| && !IsLineTerminator(text[m.BodyStart()])
  {
  }

  /**
   * What one alternative promises at one position: a genuine match with the
   * shortest body, or, when it reports none, no match of that alternative there.
   */
  lemma AltAtSpec(text: string, p: nat, k: Emphasis)
    ensures AltAt(text, p, k).Some? ==> IsMatch(text, AltAt(text, p, k).value) && IsShortest(text, AltAt(text, p, k).value)
    ensures AltAt(text, p, k).None? ==> forall c, e :: !IsMatch(text, Match(k, c, p, e))
  {
    if Opens(text, p, k) {
      var w := Width(k);
      CloseFromSpec(text, text[p], w, p + w, p + w + 1);
    }
    forall c, e ensures AltAt(text, p, k).None? ==> !IsMatch(text, Match(k, c, p, e)) {
      MatchFacts(text, Match(k, c, p, e));
    }
  }

  /** Whether `k1` comes before `k2` in the regular expression. */
  predicate Precedes(k1: Emphasis, k2: Emphasis)
  {
    Rank(k1) < Rank(k2)
  }

  /** The match fits in the text, with a non-empty body. */
  predicate Fits(text: string, m: Match)
  {
    m.BodyStart() < m.bodyEnd && m.End() <= |text|
  }

  /**
   * The regular expression tried at position `p`: the first alternative, in
   * the listed order, that matches there, with its shortest body.
   */
  function MatchAt(text: string, p: nat): (r: Option<Match>)
    ensures r.Some? ==> r.value.start == p && Fits(text, r.value)
  {
    var a := AltAt(text, p, BoldItalic);
    if a.Some? then a
    else
      var b := AltAt(text, p, Bold);
      if b.Some? then b
      else
        var c := AltAt(text, p, Italic);
        if c.Some? then c
        else AltAt(text, p, Strike)
  }

  /**
   * What the regular expression promises at one position: a match found there
   * is a genuine one with the shortest body, and no alternative listed earlier
   * matches there; when none is found, no alternative matches there at all.
   */
  lemma MatchAtSpec(text: string, p: nat)
    ensures MatchAt(text, p).Some? ==> var m := MatchAt(text, p).value;
      && IsMatch(text, m) && IsShortest(text, m)
      && forall k, c, e :: Precedes(k, m.kind) ==> !IsMatch(text, Match(k, c, p, e))
    ensures MatchAt(text, p).None? ==> forall k, c, e :: !IsMatch(text, Match(k, c, p, e))
  {
    AltAtSpec(text, p, BoldItalic);
    AltAtSpec(text, p, Bold);
    AltAtSpec(text, p, Italic);
    AltAtSpec(text, p, Strike);
  }

  /** `regex.exec(text)` with `lastIndex == from`: the match at the leftmost position at or after `from`. */
  function FindMatch(text: string, from: nat): (r: Option<Match>)
    requires from <= |text|
    ensures r.Some? ==> from <= r.value.start && Fits(text, r.value)
    decreases |text| - from
  {
    var here := MatchAt(text, from);
    if here.Some? then here
    else if from == |text| then None
    else FindMatch(text, from + 1)
  }

  /** The match `exec` returns is the leftmost one: no position before it matches; with none, no position matches. */
  lemma {:induction false} FindMatchLeftmost(text: string, from: nat)
    requires from <= |text|
    ensures FindMatch(text, from).Some? ==> MatchAt(text, FindMatch(text, from).value.start) == FindMatch(text, from)
    ensures FindMatch(text, from).Some? ==> forall q :: from <= q < FindMatch(text, from).value.start ==> MatchAt(text, q).None?
    ensures FindMatch(text, from).None? ==> forall q :: from <= q <= |text| ==> MatchAt(text, q).None?
    decreases |text| - from
  {
    var here := MatchAt(text, from);
    if here.None? && from < |text| {
      FindMatchLeftmost(text, from + 1);
      var r := FindMatch(text, from + 1);
      assert FindMatch(text, from) == r;
      if r.Some? {
        forall q | from <= q < r.value.start ensures MatchAt(text, q).None? {
          if q > from {
            assert from + 1 <= q;
          }
        }
      } else {
        forall q | from <= q <= |text| ensures MatchAt(text, q).None? {
          if q > from {
            assert from + 1 <= q;
          }
        }
      }
    }
  }

  /**
   * The nodes `parseInlineMarkdown` produces for `text[from..]` when the
   * scan resumes at `from`: the text before the next match, the match's span
   * with its body formatted recursively, then the rest.
   */
  function ParseFrom(text: string, from: nat): seq<Inline>
    requires from <= |text|
    decreases |text|, |text| - from
  {
    match FindMatch(text, from)
    case None => if from < |text| then [Text(text[from..])] else []
    case Some(m) =>
      Before(text, from, m.start)
      + [Span(m.kind, m.mark, ParseFrom(text[m.BodyStart()..m.bodyEnd], 0))]
      + ParseFrom(text, m.End())
  }

  /** One step of the scan, as `ParseFrom` takes it. */
  lemma ParseFromStep(text: string, from: nat)
    requires from <= |text|
    ensures FindMatch(text, from).None? ==>
      ParseFrom(text, from) == if from < |text| then [Text(text[from..])] else []
    ensures FindMatch(text, from).Some? ==> var m := FindMatch(text, from).value;
      ParseFrom(text, from) ==
        Before(text, from, m.start)
        + [Span(m.kind, m.mark, Parse(text[m.BodyStart()..m.bodyEnd]))]
        + ParseFrom(text, m.End())
  {
  }

  /** The nodes of a whole line. */
  function Parse(text: string): seq<Inline>
  {
    ParseFrom(text, 0)
  }

  /** The source text of a node sequence: text nodes as they are, spans re-wrapped in their markers. */
  function Flatten(nodes: seq<Inline>): string
    decreases nodes
  {
    if nodes == [] then ""
    else
      var head := match nodes[0]
        case Text(s) => s
        case Span(k, c, children) => Marker(k, c) + Flatten(children) + Marker(k, c);
      head + Flatten(nodes[1..])
  }

  lemma {:induction false} FlattenAppend(a: seq<Inline>, b: seq<Inline>)
    ensures Flatten(a + b) == Flatten(a) + Flatten(b)
    decreases |a|
  {
    if a == [] {
      assert a + b == b;
    } else {
      assert (a + b)[0] == a[0];
      assert (a + b)[1..] == a[1..] + b;
      FlattenAppend(a[1..], b);
    }
  }

  /** The matched piece of text is the marker, the body and the marker again. */
  lemma MatchText(text: string, m: Match)
    requires IsMatch(text, m)
    ensures text[m.start..m.End()] == Marker(m.kind, m.mark) + text[m.BodyStart()..m.bodyEnd] + Marker(m.kind, m.mark)
  {
    var w := Width(m.kind);
    assert text[m.start..m.BodyStart()] == Marker(m.kind, m.mark);
    assert text[m.bodyEnd..m.End()] == Marker(m.kind, m.mark);
    assert text[m.start..m.End()] == text[m.start..m.BodyStart()] + text[m.BodyStart()..m.bodyEnd] + text[m.bodyEnd..m.End()];
  }

  /** The match `exec` returns is a genuine match of its alternative. */
  lemma FoundIsMatch(text: string, from: nat)
    requires from <= |text|
    ensures FindMatch(text, from).Some? ==> IsMatch(text, FindMatch(text, from).value)
  {
    if FindMatch(text, from).Some? {
      FindMatchLeftmost(text, from);
      MatchAtSpec(text, FindMatch(text, from).value.start);
    }
  }

  /** The text before a match, as a node list: empty when the match starts where the scan resumed. */
  function Before(text: string, from: nat, start: nat): (r: seq<Inline>)
    requires from <= start <= |text|
    ensures Flatten(r) == text[from..start]
    ensures forall k :: 0 <= k < |r| ==> r[k].Text? && r[k].text != []
  {
    if from < start then
      assert Flatten([Text(text[from..start])]) == text[from..start] + Flatten([]);
      [Text(text[from..start])]
    else []
  }

  /** A span flattens to its marker, its children's text and its marker again. */
  lemma FlattenSpan(k: Emphasis, mark: char, children: seq<Inline>)
    ensures Flatten([Span(k, mark, children)]) == Marker(k, mark) + Flatten(children) + Marker(k, mark)
  {
    assert Flatten([Span(k, mark, children)]) == Marker(k, mark) + Flatten(children) + Marker(k, mark) + Flatten([]);
  }

  /** One step of the lossless argument, with the recursive results given. */
  lemma LosslessStep(text: string, from: nat, m: Match, children: seq<Inline>, rest: seq<Inline>)
    requires from <= m.start && IsMatch(text, m)
    requires Flatten(children) == text[m.BodyStart()..m.bodyEnd]
    requires Flatten(rest) == text[m.End()..]
    ensures Flatten(Before(text, from, m.start) + [Span(m.kind, m.mark, children)] + rest) == text[from..]
  {
    var pre := Before(text, from, m.start);
    var span := Span(m.kind, m.mark, children);
    calc {
      Flatten(pre + [span] + rest);
    == { FlattenAppend(pre + [span], rest); FlattenAppend(pre, [span]); }
      Flatten(pre) + Flatten([span]) + Flatten(rest);
    == { FlattenSpan(m.kind, m.mark, children); MatchText(text, m); }
      text[from..m.start] + text[m.start..m.End()] + text[m.End()..];
    == { SliceSplit(text, from, m.start, m.End()); }
      text[from..];
    }
  }

  lemma SliceSplit(s: string, i: nat, j: nat, k: nat)
    requires i <= j <= k <= |s|
    ensures s[i..j] + s[j..k] + s[k..] == s[i..]
  {
  }

  /** Formatting loses nothing: flattening the nodes of `text[from..]` reproduces it exactly. */
  lemma {:induction false} ParseFromLossless(text: string, from: nat)
    requires from <= |text|
    ensures Flatten(ParseFrom(text, from)) == text[from..]
    decreases |text|, |text| - from
  {
    ParseFromStep(text, from);
    var found := FindMatch(text, from);
    if found.None? {
      if from < |text| {
        assert Flatten([Text(text[from..])]) == text[from..] + Flatten([]);
      }
    } else {
      var m := found.value;
      var body := text[m.BodyStart()..m.bodyEnd];
      ParseFromLossless(body, 0);
      assert body[0..] == body;
      ParseFromLossless(text, m.End());
      FoundIsMatch(text, from);
      LosslessStep(text, from, m, Parse(body), ParseFrom(text, m.End()));
    }
  }

  /** `parseInlineMarkdown` is lossless: flattening its nodes gives the line back. */
  lemma ParseLossless(text: string)
    ensures Flatten(Parse(text)) == text
  {
    ParseFromLossless(text, 0);
    assert text[0..] == text;
  }

  /** No emphasis marker character in the line. */
  predicate NoMarkerChars(text: string)
  {
    forall t :: 0 <= t < |text| ==> text[t] != '*' && text[t] != '_' && text[t] != '~'
  }

  /** A line without `*`, `_` or `~` is one text node, or no node at all when it is empty. */
  lemma PlainText(text: string)
    requires NoMarkerChars(text)
    ensures Parse(text) == if text == [] then [] else [Text(text)]
  {
    forall q | 0 <= q <= |text| ensures MatchAt(text, q).None? {
      MatchAtSpec(text, q);
      match MatchAt(text, q)
      case Some(m) => MatchFacts(text, m);
      case None =>
    }
    FindMatchLeftmost(text, 0);
  }

  /**
   * Canonical form: no text node is empty, no two text nodes are adjacent,
   * and every span has at least one child and is itself in canonical form.
   */
  predicate Canonical(nodes: seq<Inline>)
    decreases nodes
  {
    forall k :: 0 <= k < |nodes| ==> CanonicalAt(nodes, k)
  }

  /** The canonical-form conditions on the node at index `k`. */
  predicate CanonicalAt(nodes: seq<Inline>, k: nat)
    requires k < |nodes|
    decreases nodes, 0
  {
    && (nodes[k].Text? ==> nodes[k].text != [] && (k + 1 < |nodes| ==> nodes[k + 1].Span?))
    && (nodes[k].Span? ==> nodes[k].children != [] && Canonical(nodes[k].children))
  }

  /** One step of the canonical-form argument, with the recursive results given. */
  lemma CanonicalStep(text: string, from: nat, m: Match, children: seq<Inline>, rest: seq<Inline>)
    requires from <= m.start <= |text|
    requires children != [] && Canonical(children) && Canonical(rest)
    ensures Canonical(Before(text, from, m.start) + [Span(m.kind, m.mark, children)] + rest)
  {
    var pre := Before(text, from, m.start);
    var span := Span(m.kind, m.mark, children);
    var nodes := pre + [span] + rest;
    forall k | 0 <= k < |nodes| ensures CanonicalAt(nodes, k) {
      if k < |pre| {
        assert nodes[k] == pre[k];
        assert nodes[k + 1] == span;
      } else if k == |pre| {
        assert nodes[k] == span;
      } else {
        var j := k - |pre| - 1;
        assert CanonicalAt(rest, j);
        assert nodes[k] == rest[j];
        if k + 1 < |nodes| {
          assert nodes[k + 1] == rest[j + 1];
        }
      }
    }
  }

  /**
   * The nodes for `text[from..]` are in canonical form, and there are some
   * exactly when there is text left.
   */
  lemma {:induction false} ParseFromCanonical(text: string, from: nat)
    requires from <= |text|
    ensures Canonical(ParseFrom(text, from))
    ensures ParseFrom(text, from) != [] <==> from < |text|
    decreases |text|, |text| - from
  {
    ParseFromStep(text, from);
    match FindMatch(text, from)
    case None =>
    case Some(m) =>
      var body := text[m.BodyStart()..m.bodyEnd];
      ParseFromCanonical(body, 0);
      ParseFromCanonical(text, m.End());
      CanonicalStep(text, from, m, Parse(body), ParseFrom(text, m.End()));
  }

  /** The formatter's output is in canonical form. */
  lemma ParseCanonical(text: string)
    ensures Canonical(Parse(text))
    ensures Parse(text) == [] <==> text == []
  {
    ParseFromCanonical(text, 0);
  }

  /**
   * The first node of a line's formatting: if the regular expression matches,
   * the text before the leftmost match, else the whole line; a match at
   * position 0 yields a span whose kind is the first alternative that matches there.
   */
  lemma FirstNode(text: string)
    requires text != []
    ensures FindMatch(text, 0).None? ==> Parse(text) == [Text(text)]
    ensures FindMatch(text, 0).Some? && FindMatch(text, 0).value.start > 0 ==>
      Parse(text)[0] == Text(text[..FindMatch(text, 0).value.start])
    ensures MatchAt(text, 0).Some? ==>
      Parse(text)[0].Span? && Parse(text)[0].kind == MatchAt(text, 0).value.kind
  {
    assert text[0..] == text;
  }

  /**
   * `parseInlineMarkdown`: the `regex.exec` loop pushes the text before each
   * match and a span for the match, recursing into the body, then advances
   * `lastIndex` past the closing marker; the trailing text is pushed last.
   */
  method ParseInlineMarkdown(text: string) returns (nodes: seq<Inline>)
    ensures nodes == Parse(text)
    decreases |text|
  {
    nodes := [];
    var lastIndex := 0;
    var found := FindMatch(text, lastIndex);
    while found.Some?
      invariant lastIndex <= |text|
      invariant found == FindMatch(text, lastIndex)
      invariant nodes + ParseFrom(text, lastIndex) == Parse(text)
      decreases |text| - lastIndex
    {
      var m := found.value;
      ghost var before := nodes;
      if m.start > lastIndex {
        nodes := nodes + [Text(text[lastIndex..m.start])];
      }
      assert nodes == before + Before(text, lastIndex, m.start);
      var children := ParseInlineMarkdown(text[m.BodyStart()..m.bodyEnd]);
      var span := Span(m.kind, m.mark, children);
      nodes := nodes + [span];
      ParseFromStep(text, lastIndex);
      AppendStep(before, Before(text, lastIndex, m.start), span, ParseFrom(text, m.End()));
      lastIndex := m.End();
      found := FindMatch(text, lastIndex);
    }
    ParseFromStep(text, lastIndex);
    if lastIndex < |text| {
      nodes := nodes + [Text(text[lastIndex..])];
    }
  }

  lemma AppendStep(before: seq<Inline>, pre: seq<Inline>, span: Inline, rest: seq<Inline>)
    ensures before + pre + [span] + rest == before + (pre + [span] + rest)
  {
  }
}
