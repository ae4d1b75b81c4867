/**
  The two regular expressions the scraper applies to a page, modelled by
  what they match rather than by a regex engine:

  - the global match `/<td[^>]*>([\s\S]*?)<\/td>/g`, which collects table-cell
    fragments left to right (`TdSpans`, `TdFragments`);
  - the global replace `/<[^>]+>/g` with `''`, which deletes markup tags
    (`StripTags`), followed by `trim()` in the shared `clean` helper (`Clean`).
 */
module HtmlScan {
  import opened Wrappers
  import opened JsStrings

  // ---------------------------------------------------------------------------
  // Cell fragments: /<td[^>]*>([\s\S]*?)<\/td>/g
  // ---------------------------------------------------------------------------

  /** `<td` starts at index `a`. */
  predicate OpenTdAt(s: string, a: int) {
    0 <= a && a + 3 <= |s| && s[a] == '<' && s[a + 1] == 't' && s[a + 2] == 'd'
  }

  /** `</td>` starts at index `k`. */
  predicate CloseTdAt(s: string, k: int) {
    && 0 <= k && k + 5 <= |s|
    && s[k] == '<' && s[k + 1] == '/' && s[k + 2] == 't' && s[k + 3] == 'd' && s[k + 4] == '>'
  }

  lemma OpenTdAtOccurs(s: string, a: int)
    ensures OpenTdAt(s, a) <==> OccursAt(s, "<td", a)
  {
    if 0 <= a && a + 3 <= |s| {
      assert s[a..a + 3] == [s[a], s[a + 1], s[a + 2]];
    }
  }

  lemma CloseTdAtOccurs(s: string, k: int)
    ensures CloseTdAt(s, k) <==> OccursAt(s, "</td>", k)
  {
    if 0 <= k && k + 5 <= |s| {
      assert s[k..k + 5] == [s[k], s[k + 1], s[k + 2], s[k + 3], s[k + 4]];
    }
  }

  /** `[^>]*>` after the `<td` at `a` ends at `j`: `s[j]` is the first `>` from `a + 3` on. */
  predicate OpenTagEnd(s: string, a: int, j: int) {
    0 <= a && a + 3 <= j < |s| && s[j] == '>' && forall m :: a + 3 <= m < j ==> s[m] != '>'
  }

  /** The lazy `[\s\S]*?<\/td>` after the `>` at `j` ends at `b`: `s[b-5..b]` is the first `</td>` after `j`. */
  predicate LazyClose(s: string, j: int, b: int) {
    0 <= j && j + 6 <= b <= |s| && CloseTdAt(s, b - 5)
    && forall q :: j < q < b - 5 ==> !CloseTdAt(s, q)
  }

  /** Reference reading of the cell regex: it matches `s[a..b]` when tried at index `a`. */
  ghost predicate TdMatch(s: string, a: int, b: int) {
    OpenTdAt(s, a) && exists j :: OpenTagEnd(s, a, j) && LazyClose(s, j, b)
  }

  /** Where `[^>]*>` started at `from` stops: the first `>` at or after `from`. */
  function FirstGt(s: string, from: nat): (r: Option<nat>)
    ensures r.Some? ==> from <= r.value < |s| && s[r.value] == '>'
    ensures r.Some? ==> forall m :: from <= m < r.value ==> s[m] != '>'
    ensures r.None? ==> forall m :: from <= m < |s| ==> s[m] != '>'
    decreases |s| - from
  {
    if from >= |s| then None
    else if s[from] == '>' then Some(from)
    else FirstGt(s, from + 1)
  }

  /** Where the lazy `[\s\S]*?<\/td>` started at `from` stops: the first `</td>` at or after `from`. */
  function FirstCloseTd(s: string, from: nat): (r: Option<nat>)
    ensures r.Some? ==> from <= r.value && CloseTdAt(s, r.value)
    ensures r.Some? ==> forall q :: from <= q < r.value ==> !CloseTdAt(s, q)
    ensures r.None? ==> forall q :: from <= q ==> !CloseTdAt(s, q)
    decreases |s| - from
  {
    if from + 5 > |s| then None
    else if CloseTdAt(s, from) then Some(from)
    else FirstCloseTd(s, from + 1)
  }

  /** Trying the cell regex at index `a`: the end of the match, if any. */
  function MatchTdAt(s: string, a: nat): (r: Option<nat>)
    ensures r.Some? ==> a < r.value <= |s|
  {
    if !OpenTdAt(s, a) then None
    else match FirstGt(s, a + 3)
      case None => None
      case Some(j) =>
        match FirstCloseTd(s, j + 1)
        case None => None
        case Some(k) => Some(k + 5)
  }

  /** `MatchTdAt` agrees with the reference reading, in both directions. */
  lemma MatchTdAtCorrect(s: string, a: nat)
    ensures MatchTdAt(s, a).Some? ==> TdMatch(s, a, MatchTdAt(s, a).value)
    ensures forall b :: TdMatch(s, a, b) ==> MatchTdAt(s, a) == Some(b)
  {
    if MatchTdAt(s, a).Some? {
      var j := FirstGt(s, a + 3).value;
      assert OpenTagEnd(s, a, j) && LazyClose(s, j, MatchTdAt(s, a).value);
    }
    forall b | TdMatch(s, a, b) ensures MatchTdAt(s, a) == Some(b) {
      var j :| OpenTagEnd(s, a, j) && LazyClose(s, j, b);
      MatchTdAtThrough(s, a, j, b);
    }
  }

  /** A match found by the reference reading, with its opening tag ending at `j`, is what `MatchTdAt` returns. */
  lemma MatchTdAtThrough(s: string, a: nat, j: int, b: int)
    requires OpenTdAt(s, a) && OpenTagEnd(s, a, j) && LazyClose(s, j, b)
    ensures MatchTdAt(s, a) == Some(b)
  {
    assert FirstGt(s, a + 3) == Some(j);
    assert FirstCloseTd(s, j + 1) == Some(b - 5);
  }

  /**
    The cell regex applied globally from `pos`: try a match at each index,
    moving on by one on failure and past the match on success. The result
    is the list of matched spans `(start, end)`, in document order.
   */
  function TdSpans(s: string, pos: nat): seq<(nat, nat)>
    decreases |s| - pos
  {
    if pos >= |s| then []
    else match MatchTdAt(s, pos)
      case Some(e) => [(pos, e)] + TdSpans(s, e)
      case None => TdSpans(s, pos + 1)
  }

  /**
    The spans `r` are matches of the cell regex, lie at or after `pos` inside
    the page, and follow each other without overlapping.
   */
  ghost predicate ValidSpans(s: string, pos: nat, r: seq<(nat, nat)>) {
    && (forall k :: 0 <= k < |r| ==> pos <= r[k].0 < r[k].1 <= |s|)
    && (forall k :: 0 <= k < |r| ==> TdMatch(s, r[k].0, r[k].1))
    && (forall k :: 0 <= k < |r| - 1 ==> r[k].1 <= r[k + 1].0)
  }

  /** A property of every element survives putting one more element that has it in front. */
  lemma ForallCons<T>(x: T, r': seq<T>, P: T -> bool)
    requires P(x) && forall k :: 0 <= k < |r'| ==> P(r'[k])
    ensures forall k :: 0 <= k < |[x] + r'| ==> P(([x] + r')[k])
  {
    forall k | 0 <= k < |[x] + r'| ensures P(([x] + r')[k]) {
      if k > 0 { assert ([x] + r')[k] == r'[k - 1]; }
    }
  }

  /** A match from `pos` to `e` followed by valid spans from `e` on gives valid spans from `pos` on. */
  lemma ValidSpansCons(s: string, pos: nat, e: nat, r': seq<(nat, nat)>)
    requires pos < e <= |s| && TdMatch(s, pos, e) && ValidSpans(s, e, r')
    ensures ValidSpans(s, pos, [(pos, e)] + r')
  {
    var r := [(pos, e)] + r';
    ForallCons((pos, e), r', (p: (nat, nat)) => pos <= p.0 < p.1 <= |s|);
    ForallCons((pos, e), r', (p: (nat, nat)) => TdMatch(s, p.0, p.1));
    forall k | 0 <= k < |r| - 1 ensures r[k].1 <= r[k + 1].0 {
      assert r[k + 1] == r'[k];
      if k > 0 { assert r[k] == r'[k - 1]; }
    }
  }

  lemma {:induction false} TdSpansValid(s: string, pos: nat)
    ensures ValidSpans(s, pos, TdSpans(s, pos))
    decreases |s| - pos
  {
    if pos < |s| {
      match MatchTdAt(s, pos)
      case Some(e) =>
        TdSpansValid(s, e);
        MatchTdAtCorrect(s, pos);
        ValidSpansCons(s, pos, e, TdSpans(s, e));
      case None =>
        TdSpansValid(s, pos + 1);
    }
  }

  /** Index `p` lies inside one of the spans of `r`. */
  ghost predicate Covered(r: seq<(nat, nat)>, p: int) {
    exists k :: 0 <= k < |r| && r[k].0 <= p < r[k].1
  }

  /** A span list with one more span in front still covers what it covered. */
  lemma CoveredCons(x: (nat, nat), r': seq<(nat, nat)>, p: int)
    requires Covered(r', p)
    ensures Covered([x] + r', p)
  {
    var k :| 0 <= k < |r'| && r'[k].0 <= p < r'[k].1;
    assert ([x] + r')[k + 1] == r'[k];
  }

  /** Every index from `pos` on at which the cell regex would match lies inside a collected span. */
  lemma {:induction false} TdSpansLeftmost(s: string, pos: nat, p: nat)
    requires pos <= p && MatchTdAt(s, p).Some?
    ensures Covered(TdSpans(s, pos), p)
    decreases |s| - pos
  {
    match MatchTdAt(s, pos)
    case Some(e) =>
      var r := [(pos, e)] + TdSpans(s, e);
      assert TdSpans(s, pos) == r;
      if p < e {
        assert r[0].0 <= p < r[0].1;
      } else {
        TdSpansLeftmost(s, e, p);
        CoveredCons((pos, e), TdSpans(s, e), p);
      }
    case None =>
      assert TdSpans(s, pos) == TdSpans(s, pos + 1);
      TdSpansLeftmost(s, pos + 1, p);
  }

  /**
    Once the regex fails at a `<td`, it fails at every later index too: any
    later opening tag ends at or after the failed one's first `>`.
   */
  lemma NoMatchAfterFailedOpen(s: string, i: nat, p: nat)
    requires OpenTdAt(s, i) && i < p
    ensures MatchTdAt(s, i).None? ==> MatchTdAt(s, p).None?
  {
    if MatchTdAt(s, p).Some? {
      var j' := FirstGt(s, p + 3).value;
      assert FirstCloseTd(s, j' + 1).Some?;
      var j := FirstGt(s, i + 3).value;
      assert j <= j';
      assert FirstCloseTd(s, j + 1).Some?;
    }
  }

  /** Indices that hold no `<td` are skipped by the scan. */
  lemma {:induction false} TdSpansSkip(s: string, pos: nat, q: nat)
    requires pos <= q <= |s|
    requires forall t :: pos <= t < q ==> !OpenTdAt(s, t)
    ensures TdSpans(s, pos) == TdSpans(s, q)
    decreases q - pos
  {
    if pos < q {
      assert MatchTdAt(s, pos).None?;
      assert TdSpans(s, pos) == TdSpans(s, pos + 1);
      TdSpansSkip(s, pos + 1, q);
    }
  }

  /** No `</td>` starts inside `x` when `x` holds no `<`. */
  lemma NoCloseInPlainText(s: string, lo: nat, hi: nat)
    requires lo <= hi <= |s| && '<' !in s[lo..hi]
    ensures forall q :: lo <= q < hi ==> !CloseTdAt(s, q)
  {
    forall q | lo <= q < hi ensures !CloseTdAt(s, q) {
      assert s[q] == s[lo..hi][q - lo];
    }
  }

  /** Where the pieces of a plain cell `<td>x</td>` at index `a` sit in the page. */
  lemma PlainCellPieces(s: string, a: nat, x: string)
    requires a + 9 + |x| <= |s| && s[a..a + 9 + |x|] == "<td>" + x + "</td>"
    ensures OpenTdAt(s, a) && s[a + 3] == '>'
    ensures s[a + 4..a + 4 + |x|] == x && CloseTdAt(s, a + 4 + |x|)
  {
    var c := "<td>" + x + "</td>";
    var t := s[a..a + 9 + |x|];
    var k := 4 + |x|;
    assert t[0] == s[a] && t[1] == s[a + 1] && t[2] == s[a + 2] && t[3] == s[a + 3];
    assert t[k] == s[a + k] && t[k + 1] == s[a + k + 1] && t[k + 2] == s[a + k + 2];
    assert t[k + 3] == s[a + k + 3] && t[k + 4] == s[a + k + 4];
    SliceParts("<td>", x, "</td>");
    SliceOfSlice(s, a, a + 9 + |x|, 4, k);
  }

  /** A plain cell `<td>x</td>` at index `a`, with no markup inside, is matched whole. */
  lemma PlainCellMatch(s: string, a: nat, x: string)
    requires '<' !in x
    requires a + 9 + |x| <= |s| && s[a..a + 9 + |x|] == "<td>" + x + "</td>"
    ensures MatchTdAt(s, a) == Some(a + 9 + |x|)
  {
    var k := a + 4 + |x|;
    PlainCellPieces(s, a, x);
    assert FirstGt(s, a + 3) == Some(a + 3);
    NoCloseInPlainText(s, a + 4, k);
    assert FirstCloseTd(s, a + 4) == Some(k);
  }

  /** Text up to a plain cell is skipped when it holds no `<`, and the cell is the next span. */
  lemma TdSpansPlainCell(s: string, pos: nat, a: nat, x: string)
    requires pos <= a && '<' !in x
    requires a + 9 + |x| <= |s| && s[a..a + 9 + |x|] == "<td>" + x + "</td>"
    requires '<' !in s[pos..a]
    ensures TdSpans(s, pos) == [(a, a + 9 + |x|)] + TdSpans(s, a + 9 + |x|)
  {
    forall t | pos <= t < a ensures !OpenTdAt(s, t) {
      assert s[t] == s[pos..a][t - pos];
    }
    TdSpansSkip(s, pos, a);
    PlainCellMatch(s, a, x);
  }

  /** `html.match(/<td[^>]*>([\s\S]*?)<\/td>/g)`, with `null` (no match) as the empty list. */
  function TdFragments(s: string): seq<string>
  {
    var sp := TdSpans(s, 0);
    TdSpansValid(s, 0);
    seq(|sp|, k requires 0 <= k < |sp| => s[sp[k].0..sp[k].1])
  }

  /** What the regex matched at `a`, read on its own, is a whole match of the regex. */
  lemma MatchIsSelfContained(s: string, a: nat, b: nat)
    requires TdMatch(s, a, b)
    ensures TdMatch(s[a..b], 0, b - a)
  {
    var f := s[a..b];
    var j :| OpenTagEnd(s, a, j) && LazyClose(s, j, b);
    assert forall m :: 0 <= m < b - a ==> f[m] == s[a + m];
    assert OpenTdAt(f, 0);
    assert OpenTagEnd(f, 0, j - a);
    assert CloseTdAt(f, b - a - 5);
    forall q | j - a < q < b - a - 5 ensures !CloseTdAt(f, q) {
      assert !CloseTdAt(s, a + q);
    }
    assert LazyClose(f, j - a, b - a);
  }

  /**
    The cell fragments, in document order and without overlap, are the page
    slices of the collected spans, and each one is by itself a match of the
    cell regex: it begins with `<td`, its opening tag ends at its first `>`,
    and it ends at the first `</td>` after that `>`.
   */
  lemma TdFragmentsShape(s: string)
    ensures |TdFragments(s)| == |TdSpans(s, 0)|
    ensures ValidSpans(s, 0, TdSpans(s, 0))
    ensures forall k :: 0 <= k < |TdFragments(s)| ==>
      && TdFragments(s)[k] == s[TdSpans(s, 0)[k].0..TdSpans(s, 0)[k].1]
      && TdMatch(TdFragments(s)[k], 0, |TdFragments(s)[k]|)
  {
    var sp := TdSpans(s, 0);
    var cells := TdFragments(s);
    TdSpansValid(s, 0);
    assert |cells| == |sp|;
    forall k | 0 <= k < |cells|
      ensures cells[k] == s[sp[k].0..sp[k].1] && TdMatch(cells[k], 0, |cells[k]|)
    {
      var a, b := sp[k].0, sp[k].1;
      assert cells[k] == s[a..b];
      MatchIsSelfContained(s, a, b);
    }
  }

  /** Every fragment begins with `<td` and ends with `</td>`. */
  lemma TdFragmentsDelimited(s: string)
    ensures forall k :: 0 <= k < |TdFragments(s)| ==>
      StartsWith(TdFragments(s)[k], "<td") && EndsWith(TdFragments(s)[k], "</td>")
  {
    TdFragmentsShape(s);
    var cells := TdFragments(s);
    forall k | 0 <= k < |cells|
      ensures StartsWith(cells[k], "<td") && EndsWith(cells[k], "</td>")
    {
      OpenTdAtOccurs(cells[k], 0);
      CloseTdAtOccurs(cells[k], |cells[k]| - 5);
    }
  }

  /**
    A fragment can hold a `</td>` besides its last five characters: one that
    sits inside the opening tag's `[^>]*`, before the first `>`.
   */
  lemma CloseInsideOpeningTag()
    ensures TdFragments("<td</td></td>") == ["<td</td></td>"]
    ensures CloseTdAt("<td</td></td>", 3)
  {
    var s := "<td</td></td>";
    assert s[3] == '<' && s[4] == '/' && s[5] == 't' && s[6] == 'd' && s[7] == '>';
    assert FirstGt(s, 3) == Some(7);
    assert CloseTdAt(s, 8);
    assert FirstCloseTd(s, 8) == Some(8);
    assert MatchTdAt(s, 0) == Some(13);
    assert TdSpans(s, 13) == [];
    assert TdSpans(s, 0) == [(0, 13)];
    assert s[0..13] == s;
  }

  /** Two plain cells after markup-free text are the first two spans. */
  lemma TdSpansTwoPlainCells(s: string, a0: nat, x: string, y: string)
    requires a0 + 18 + |x| + |y| <= |s|
    requires '<' !in s[..a0] && '<' !in x && '<' !in y
    requires s[a0..a0 + 9 + |x|] == "<td>" + x + "</td>"
    requires s[a0 + 9 + |x|..a0 + 18 + |x| + |y|] == "<td>" + y + "</td>"
    ensures |TdSpans(s, 0)| >= 2
    ensures TdSpans(s, 0)[0] == (a0, a0 + 9 + |x|)
    ensures TdSpans(s, 0)[1] == (a0 + 9 + |x|, a0 + 18 + |x| + |y|)
  {
    var e0 := a0 + 9 + |x|;
    assert s[0..a0] == s[..a0];
    assert s[e0..e0] == [];
    TdSpansPlainCell(s, e0, e0, y);
    var r1 := TdSpans(s, e0);
    TdSpansPlainCell(s, 0, a0, x);
    assert TdSpans(s, 0) == [(a0, e0)] + r1;
  }

  /** The fragments of `lead<td>x</td><td>y</td>rest`, for plain `lead`, `x`, `y`, begin with the two cells. */
  lemma TdFragmentsTwoPlainCells(lead: string, x: string, y: string, rest: string)
    requires '<' !in lead && '<' !in x && '<' !in y
    ensures var cells := TdFragments(lead + ("<td>" + x + "</td>") + ("<td>" + y + "</td>") + rest);
      |cells| >= 2 && cells[0] == "<td>" + x + "</td>" && cells[1] == "<td>" + y + "</td>"
  {
    var c1 := "<td>" + x + "</td>";
    var c2 := "<td>" + y + "</td>";
    var s := lead + c1 + c2 + rest;
    var a0 := |lead|;
    var e0 := a0 + |c1|;
    var e1 := e0 + |c2|;
    SliceParts(lead + c1, c2, rest);
    SliceParts(lead, c1, []);
    assert lead + c1 + [] == lead + c1;
    SliceOfSlice(s, 0, e0, a0, e0);
    SliceOfSlice(s, 0, e0, 0, a0);
    TdSpansTwoPlainCells(s, a0, x, y);
  }

  /** The fragments of `lead<td>x</td>`, for plain `lead` and `x`, are that one cell. */
  lemma TdFragmentsOnePlainCell(lead: string, x: string)
    requires '<' !in lead && '<' !in x
    ensures TdFragments(lead + ("<td>" + x + "</td>")) == ["<td>" + x + "</td>"]
  {
    var c1 := "<td>" + x + "</td>";
    var s := lead + c1;
    var a0 := |lead|;
    assert s[a0..|s|] == c1;
    assert s[0..a0] == lead;
    TdSpansPlainCell(s, 0, a0, x);
    assert TdSpans(s, |s|) == [];
  }

  /** Plain text, then two plain cells that end the page: from `pos` the scan finds those two cells and nothing else. */
  lemma TdSpansExactlyTwoPlainCells(s: string, pos: nat, a0: nat, x: string, y: string)
    requires pos <= a0 && a0 + 18 + |x| + |y| == |s|
    requires '<' !in s[pos..a0] && '<' !in x && '<' !in y
    requires s[a0..a0 + 9 + |x|] == "<td>" + x + "</td>"
    requires s[a0 + 9 + |x|..|s|] == "<td>" + y + "</td>"
    ensures TdSpans(s, pos) == [(a0, a0 + 9 + |x|), (a0 + 9 + |x|, |s|)]
  {
    var e0 := a0 + 9 + |x|;
    assert s[e0..e0] == [];
    TdSpansPlainCell(s, e0, e0, y);
    assert TdSpans(s, |s|) == [];
    TdSpansPlainCell(s, pos, a0, x);
  }

  /** The fragments of `lead<td>x</td><td>y</td>`, for plain `lead`, `x`, `y`, are those two cells. */
  lemma TdFragmentsExactlyTwoPlainCells(lead: string, x: string, y: string)
    requires '<' !in lead && '<' !in x && '<' !in y
    ensures TdFragments(lead + ("<td>" + x + "</td>") + ("<td>" + y + "</td>"))
         == ["<td>" + x + "</td>", "<td>" + y + "</td>"]
  {
    var c1 := "<td>" + x + "</td>";
    var c2 := "<td>" + y + "</td>";
    var s := lead + c1 + c2;
    var a0 := |lead|;
    var e0 := a0 + |c1|;
    SliceParts(lead, c1, c2);
    assert s[e0..|s|] == c2;
    assert s[0..a0] == lead;
    TdSpansExactlyTwoPlainCells(s, 0, a0, x, y);
  }

  // ---------------------------------------------------------------------------
  // clean: str.replace(/<[^>]+>/g, '').trim()
  // ---------------------------------------------------------------------------

  /** The tag regex tried at the start of `s`: the length of the `<…>` token there, if any. */
  function TagAtStart(s: string): (r: Option<nat>)
    ensures r.Some? ==> 3 <= r.value <= |s|
    ensures r.Some? ==> s[0] == '<' && s[r.value - 1] == '>'
    ensures r.Some? ==> forall m :: 1 <= m < r.value - 1 ==> s[m] != '>'
  {
    if s == [] || s[0] != '<' then None
    else match FirstGt(s, 1)
      case None => None
      case Some(q) => if q >= 2 then Some(q + 1) else None
  }

  /**
    Reference reading of "no `<…>` token left": every `<` is either directly
    followed by `>` (so `[^>]+` cannot match) or has no `>` anywhere after it.
   */
  predicate TagFree(s: string) {
    forall p :: 0 <= p < |s| && s[p] == '<' ==>
      (p + 1 < |s| && s[p + 1] == '>') || '>' !in s[p + 1..]
  }

  /** `s.replace(/<[^>]+>/g, '')`: drop each tag token met scanning left to right. */
  function StripTags(s: string): (r: string)
    ensures |r| <= |s|
    decreases |s|
  {
    if s == [] then []
    else match TagAtStart(s)
      case Some(e) => StripTags(s[e..])
      case None => [s[0]] + StripTags(s[1..])
  }

  /** `t` is `s` with some characters deleted (order kept, nothing inserted). */
  predicate IsSubsequence(t: string, s: string)
    decreases |s|
  {
    if t == [] then true
    else if s == [] then false
    else if t[0] == s[0] then IsSubsequence(t[1..], s[1..])
    else IsSubsequence(t, s[1..])
  }

  lemma {:induction false} SubsequenceRefl(s: string)
    ensures IsSubsequence(s, s)
    decreases |s|
  {
    if s != [] { SubsequenceRefl(s[1..]); }
  }

  /** Dropping the first character of `t` keeps it a subsequence of `s`. */
  lemma {:induction false} SubsequenceDropHead(t: string, s: string)
    requires t != [] && IsSubsequence(t, s)
    ensures IsSubsequence(t[1..], s)
    decreases |s|
  {
    if t[1..] != [] {
      if t[0] == s[0] {
        SubsequenceDropHead(t[1..], s[1..]);
      } else {
        SubsequenceDropHead(t, s[1..]);
      }
      if t[1] != s[0] {
      } else {
        SubsequenceDropHead(t[1..], s[1..]);
      }
    }
  }

  lemma {:induction false} SubsequenceTrans(a: string, b: string, c: string)
    requires IsSubsequence(a, b) && IsSubsequence(b, c)
    ensures IsSubsequence(a, c)
    decreases |c|
  {
    if a != [] {
      if b[0] == c[0] {
        if a[0] == b[0] {
          SubsequenceTrans(a[1..], b[1..], c[1..]);
        } else {
          SubsequenceTrans(a, b[1..], c[1..]);
        }
      } else {
        SubsequenceTrans(a, b, c[1..]);
        if a[0] == c[0] { SubsequenceDropHead(a, c[1..]); }
      }
    }
  }

  /** A contiguous slice of `s` is a subsequence of it. */
  lemma {:induction false} SliceIsSubsequence(s: string, a: nat, b: nat)
    requires a <= b <= |s|
    ensures IsSubsequence(s[a..b], s)
    decreases |s|
  {
    if a < b {
      if a == 0 {
        SliceIsSubsequence(s[1..], 0, b - 1);
        assert s[a..b][1..] == s[1..][0..b - 1];
      } else {
        SliceIsSubsequence(s[1..], a - 1, b - 1);
        assert s[1..][a - 1..b - 1] == s[a..b];
        if s[a] == s[0] { SubsequenceDropHead(s[a..b], s[1..]); }
      }
    }
  }

  lemma {:induction false} SubsequenceMembers(t: string, s: string)
    requires IsSubsequence(t, s)
    ensures forall c :: c in t ==> c in s
    decreases |s|
  {
    if t != [] {
      if t[0] == s[0] {
        SubsequenceMembers(t[1..], s[1..]);
        assert t == [t[0]] + t[1..];
      } else {
        SubsequenceMembers(t, s[1..]);
      }
    }
  }

  /** Tag stripping only deletes: what is left is `s` with characters removed, in their order. */
  lemma {:induction false} StripTagsSubsequence(s: string)
    ensures IsSubsequence(StripTags(s), s)
    decreases |s|
  {
    if s != [] {
      match TagAtStart(s)
      case Some(e) =>
        StripTagsSubsequence(s[e..]);
        SliceIsSubsequence(s, e, |s|);
        assert s[e..|s|] == s[e..];
        SubsequenceTrans(StripTags(s[e..]), s[e..], s);
      case None =>
        StripTagsSubsequence(s[1..]);
    }
  }

  /** No `<…>` token survives tag stripping. */
  lemma {:induction false} StripTagsTagFree(s: string)
    ensures TagFree(StripTags(s))
    decreases |s|
  {
    if s != [] {
      match TagAtStart(s)
      case Some(e) =>
        StripTagsTagFree(s[e..]);
      case None =>
        var rest := StripTags(s[1..]);
        StripTagsTagFree(s[1..]);
        var r := [s[0]] + rest;
        assert StripTags(s) == r;
        forall p | 0 <= p < |r| && r[p] == '<'
          ensures (p + 1 < |r| && r[p + 1] == '>') || '>' !in r[p + 1..]
        {
          if p == 0 {
            TagAtStartNone(s);
            if 1 < |s| && s[1] == '>' {
              assert StripTags(s[1..]) == [s[1]] + StripTags(s[1..][1..]);
            } else {
              StripTagsSubsequence(s[1..]);
              SubsequenceMembers(rest, s[1..]);
              assert r[1..] == rest;
            }
          } else {
            assert rest[p - 1] == '<';
            assert r[p + 1..] == rest[p..];
          }
        }
    }
  }

  lemma TagFreeSlice(s: string, a: nat, b: nat)
    requires TagFree(s) && a <= b <= |s|
    ensures TagFree(s[a..b])
  {
    var t := s[a..b];
    forall p | 0 <= p < |t| && t[p] == '<'
      ensures (p + 1 < |t| && t[p + 1] == '>') || '>' !in t[p + 1..]
    {
      assert s[a + p] == '<';
      if '>' !in s[a + p + 1..] {
        assert t[p + 1..] == s[a + p + 1..b];
        assert s[a + p + 1..] == s[a + p + 1..b] + s[b..];
      }
    }
  }

  /** `TagAtStart` finds no tag exactly when `s` does not start with `<`, or its `<` is followed by `>` or by no `>` at all. */
  lemma TagAtStartNone(s: string)
    ensures TagAtStart(s).None? <==>
      s == [] || s[0] != '<' || (1 < |s| && s[1] == '>') || '>' !in s[1..]
  {
    if s != [] && s[0] == '<' {
      if FirstGt(s, 1).None? {
        forall m | 0 <= m < |s[1..]| ensures s[1..][m] != '>' {
          assert s[1..][m] == s[m + 1];
        }
      } else if FirstGt(s, 1).value >= 2 {
        assert s[1..][FirstGt(s, 1).value - 1] == '>';
      }
    }
  }

  /** Stripping leaves tag-free text untouched. */
  lemma {:induction false} StripTagsOfTagFree(s: string)
    requires TagFree(s)
    ensures StripTags(s) == s
    decreases |s|
  {
    if s != [] {
      TagAtStartNone(s);
      assert TagAtStart(s).None?;
      TagFreeSlice(s, 1, |s|);
      assert s[1..|s|] == s[1..];
      StripTagsOfTagFree(s[1..]);
      assert s == [s[0]] + s[1..];
    }
  }

  /** Text without `<` passes through tag stripping unchanged (Persian digits, commas, signs). */
  lemma {:induction false} StripTagsPlainPrefix(x: string, y: string)
    requires '<' !in x
    ensures StripTags(x + y) == x + StripTags(y)
    decreases |x|
  {
    if x != [] {
      assert (x + y)[0] == x[0] && x[0] != '<';
      assert (x + y)[1..] == x[1..] + y;
      assert StripTags(x + y) == [x[0]] + StripTags(x[1..] + y);
      StripTagsPlainPrefix(x[1..], y);
      assert x == [x[0]] + x[1..];
    } else {
      assert x + y == y;
    }
  }

  /** A `<…>` token with a non-empty body is removed as a whole. */
  lemma StripTagsDropsTag(body: string, y: string)
    requires |body| >= 1 && '>' !in body
    ensures StripTags("<" + body + ">" + y) == StripTags(y)
  {
    var s := "<" + body + ">" + y;
    var q := |body| + 1;
    assert s[q] == '>';
    forall k | 1 <= k < q ensures s[k] != '>' {
      assert s[k] == body[k - 1];
    }
    assert FirstGt(s, 1) == Some(q);
    assert s[q + 1..] == y;
  }

  /** The shared `clean` helper of both scraper revisions. */
  function Clean(s: string): (r: string)
    ensures Trimmed(r) && TagFree(r)
    ensures IsSubsequence(r, s)
  {
    var stripped := StripTags(s);
    StripTagsTagFree(s);
    StripTagsSubsequence(s);
    var r := Trim(stripped);
    var a := SkipWhitespace(stripped, 0);
    var b := a + |r|;
    TagFreeSlice(stripped, a, b);
    SliceIsSubsequence(stripped, a, b);
    SubsequenceTrans(r, stripped, s);
    r
  }

  /** Cleaning twice is cleaning once. */
  lemma CleanIdempotent(s: string)
    ensures Clean(Clean(s)) == Clean(s)
  {
    var c := Clean(s);
    StripTagsOfTagFree(c);
    TrimIdempotent(StripTags(s));
  }

  /** An opening `<td>` is removed as a whole. */
  lemma StripTagsOpenCell(y: string)
    ensures StripTags("<td>" + y) == StripTags(y)
  {
    var s := "<td>" + y;
    assert s[0] == '<' && s[1] == 't' && s[2] == 'd' && s[3] == '>';
    assert FirstGt(s, 1) == Some(3);
    assert s[4..] == y;
  }

  /** A closing `</td>` is removed as a whole. */
  lemma StripTagsCloseCell()
    ensures StripTags("</td>") == []
  {
    var s := "</td>";
    assert FirstGt(s, 1) == Some(4);
    assert s[5..] == [];
  }

  /** Stripping a plain cell `<td>x</td>` leaves `x`. */
  lemma StripTagsPlainCell(x: string)
    requires '<' !in x
    ensures StripTags("<td>" + x + "</td>") == x
  {
    var y := x + "</td>";
    assert "<td>" + x + "</td>" == "<td>" + y;
    StripTagsOpenCell(y);
    StripTagsPlainPrefix(x, "</td>");
    StripTagsCloseCell();
    assert x + [] == x;
  }

  /** Cleaning a plain cell `<td>x</td>` gives `x` trimmed. */
  lemma CleanPlainCell(x: string)
    requires '<' !in x
    ensures Clean("<td>" + x + "</td>") == Trim(x)
  {
    StripTagsPlainCell(x);
  }
}
