/**
 * The reading-time estimator of a post page (src/utils/getMinutesToRead.ts).
 *
 * The estimator folds the post's content blocks into one string, splits it on
 * runs of whitespace, drops the empty pieces and reports
 * `ceil(words / 200)` followed by " min".
 *
 * The rich-text library's `asText` is a call into code that is not part of
 * this model: it is a parameter of every member that needs it, and nothing is
 * assumed about what it returns.
 */
module ReadingTime {

  /** Reading speed the estimate assumes, in words per minute. */
  const WordsPerMinute: nat := 200

  /**
   * A placeholder for one node of the structured rich-text document the
   * backend sends. Its fields are never read here: the document only reaches
   * `asText`, which is left unconstrained.
   */
  datatype RichTextNode = RichTextNode(kind: string, text: string)

  /**
   * A block's body arrives untyped. It is either an array (a structured
   * rich-text document) or something else: markup already rendered to a
   * string, an object, null.
   */
  datatype Body = ArrayBody(nodes: seq<RichTextNode>) | NonArrayBody

  datatype ContentBlock = ContentBlock(heading: string, body: Body)

  // ---------------------------------------------------------------------------
  // Whitespace and tokenisation: `split(/\s+/g).filter(Boolean)`
  // ---------------------------------------------------------------------------

  /**
   * The characters the regular-expression class `\s` matches in ECMAScript:
   * the WhiteSpace characters (tab, vertical tab, form feed, space, no-break
   * space, zero-width no-break space, the space separators of Unicode) and
   * the LineTerminator characters (line feed, carriage return, line and
   * paragraph separator).
   */
  predicate IsSpace(c: char)
  {
    var n := c as int;
    n == 0x09 || n == 0x0A || n == 0x0B || n == 0x0C || n == 0x0D || n == 0x20 ||
    n == 0xA0 || n == 0x1680 || (0x2000 <= n <= 0x200A) || n == 0x2028 ||
    n == 0x2029 || n == 0x202F || n == 0x205F || n == 0x3000 || n == 0xFEFF
  }

  predicate NoSpace(s: string)
  {
    forall i :: 0 <= i < |s| ==> !IsSpace(s[i])
  }

  predicate AllSpace(s: string)
  {
    forall i :: 0 <= i < |s| ==> IsSpace(s[i])
  }

  /** Length of the longest prefix of `s` that holds no whitespace. */
  function WordLength(s: string): (k: nat)
    ensures k <= |s| && NoSpace(s[..k])
    ensures k < |s| ==> IsSpace(s[k])
  {
    if s == [] || IsSpace(s[0]) then 0
    else
      var k' := WordLength(s[1..]);
      assert s[..k' + 1] == [s[0]] + s[1..][..k'];
      k' + 1
  }

  /** Length of the longest prefix of `s` that is all whitespace. */
  function GapLength(s: string): (g: nat)
    ensures g <= |s| && AllSpace(s[..g])
    ensures g < |s| ==> !IsSpace(s[g])
  {
    if s == [] || !IsSpace(s[0]) then 0
    else
      var g' := GapLength(s[1..]);
      assert s[..g' + 1] == [s[0]] + s[1..][..g'];
      g' + 1
  }

  /**
   * `s.split(/\s+/g)`: the pieces of `s` between maximal runs of whitespace,
   * in order. A leading or a trailing run yields an empty first or last piece,
   * and the empty string splits into one empty piece.
   */
  function Split(s: string): (parts: seq<string>)
    ensures SplitShape(s, parts)
    decreases |s|
  {
    var k := WordLength(s);
    if k == |s| then
      assert s[..k] == s;
      SplitSingle(s);
      [s]
    else
      var g := GapLength(s[k..]);
      GapAfterWord(s, k, g);
      var tail := Split(s[k + g..]);
      assert s[k + g..] == [] ==> tail == [[]];
      SplitAtGap(s, k, g, tail);
      [s[..k]] + tail
  }

  /**
   * `parts` is what splitting `s` on whitespace runs must give: at least one
   * piece, no piece holds whitespace, the pieces joined are the
   * non-whitespace characters of `s` in order, every interior piece is
   * non-empty, and the first (last) piece is empty exactly when `s` is empty
   * or starts (ends) with whitespace.
   */
  predicate SplitShape(s: string, parts: seq<string>)
  {
    |parts| >= 1 &&
    (forall p :: p in parts ==> NoSpace(p)) &&
    Concat(parts) == NonSpace(s) &&
    (forall i :: 0 < i < |parts| - 1 ==> parts[i] != []) &&
    (parts[0] == [] <==> s == [] || IsSpace(s[0])) &&
    (parts[|parts| - 1] == [] <==> s == [] || IsSpace(s[|s| - 1]))
  }

  /**
   * The pieces `parts` with the runs `gaps` between them: piece, gap, piece,
   * ..., piece.
   */
  function Interleave(parts: seq<string>, gaps: seq<string>): string
    requires |parts| == |gaps| + 1
    decreases |gaps|
  {
    if gaps == [] then parts[0]
    else parts[0] + gaps[0] + Interleave(parts[1..], gaps[1..])
  }

  /**
   * A cut of `s` at its maximal whitespace runs: `s` is `parts` interleaved
   * with `gaps`, every gap a non-empty whitespace run, every piece free of
   * whitespace and every interior piece non-empty (so that no gap can be
   * extended into a neighbouring piece).
   */
  predicate Cuts(s: string, parts: seq<string>, gaps: seq<string>)
  {
    |parts| == |gaps| + 1 &&
    (forall p :: p in parts ==> NoSpace(p)) &&
    (forall i :: 0 < i < |parts| - 1 ==> parts[i] != []) &&
    (forall gap :: gap in gaps ==> gap != [] && AllSpace(gap)) &&
    s == Interleave(parts, gaps)
  }

  /** `Split` cuts `s` at its maximal whitespace runs; the lemma returns the runs. */
  lemma {:induction false} SplitCuts(s: string) returns (gaps: seq<string>)
    ensures Cuts(s, Split(s), gaps)
    decreases |s|
  {
    var k := WordLength(s);
    if k == |s| {
      assert s[..k] == s;
      gaps := [];
    } else {
      var g := GapLength(s[k..]);
      GapAfterWord(s, k, g);
      var w, gap, r := s[..k], s[k..k + g], s[k + g..];
      var gaps' := SplitCuts(r);
      SplitStep(s, k, g);
      var parts := [w] + Split(r);
      gaps := [gap] + gaps';
      assert parts[0] == w && parts[1..] == Split(r) && gaps[0] == gap && gaps[1..] == gaps';
      CutsCons(s, parts, gaps);
    }
  }

  /** One step of `Split`: the first word, then the split of what follows the first gap. */
  lemma SplitStep(s: string, k: nat, g: nat)
    requires k == WordLength(s) && k < |s| && g == GapLength(s[k..]) && k + g <= |s|
    ensures Split(s) == [s[..k]] + Split(s[k + g..])
  {
    GapAfterWord(s, k, g);
  }

  /** A first piece and a first gap in front of a cut of the rest make a cut. */
  lemma CutsCons(s: string, parts: seq<string>, gaps: seq<string>)
    requires |parts| == |gaps| + 1 && gaps != []
    requires (forall p :: p in parts ==> NoSpace(p)) && (forall i :: 0 < i < |parts| - 1 ==> parts[i] != [])
    requires gaps[0] != [] && AllSpace(gaps[0])
    requires Cuts(Interleave(parts[1..], gaps[1..]), parts[1..], gaps[1..])
    requires s == parts[0] + gaps[0] + Interleave(parts[1..], gaps[1..])
    ensures Cuts(s, parts, gaps)
  {
    forall gap | gap in gaps
      ensures gap != [] && AllSpace(gap)
    {
      if gap != gaps[0] {
        assert gap in gaps[1..];
      }
    }
  }

  /**
   * Taking a cut apart: its first piece, its first gap, and a cut of the rest,
   * which is empty or starts with a non-space.
   */
  lemma CutsTail(s: string, parts: seq<string>, gaps: seq<string>)
    requires Cuts(s, parts, gaps) && gaps != []
    ensures s == parts[0] + gaps[0] + Interleave(parts[1..], gaps[1..])
    ensures NoSpace(parts[0]) && gaps[0] != [] && AllSpace(gaps[0])
    ensures Cuts(Interleave(parts[1..], gaps[1..]), parts[1..], gaps[1..])
    ensures var rest := Interleave(parts[1..], gaps[1..]); rest == [] || !IsSpace(rest[0])
  {
    assert parts[0] in parts && gaps[0] in gaps;
    if parts[1] != [] {
      InterleaveHead(parts[1..], gaps[1..]);
      assert parts[1] in parts;
    } else {
      assert |gaps| == 1;
    }
    forall q | q in parts[1..]
      ensures NoSpace(q)
    {
      assert q in parts;
    }
    forall i | 0 < i < |parts[1..]| - 1
      ensures parts[1..][i] != []
    {
      assert parts[1..][i] == parts[i + 1];
    }
    forall q | q in gaps[1..]
      ensures q != [] && AllSpace(q)
    {
      assert q in gaps;
    }
  }

  /** No other cut exists: whatever cuts `s` at maximal whitespace runs is `Split(s)`. */
  lemma {:induction false} SplitUnique(s: string, parts: seq<string>, gaps: seq<string>)
    requires Cuts(s, parts, gaps)
    ensures Split(s) == parts
    decreases |gaps|
  {
    if gaps == [] {
      assert s == parts[0] && s[..|s|] == s;
      WordLengthAt(s, |s|);
    } else {
      SplitOfCut(s, parts, gaps);
      SplitUnique(Interleave(parts[1..], gaps[1..]), parts[1..], gaps[1..]);
      assert parts == [parts[0]] + parts[1..];
    }
  }

  /** `Split` of a cut string yields its first piece, then the split of what follows its first gap. */
  lemma SplitOfCut(s: string, parts: seq<string>, gaps: seq<string>)
    requires Cuts(s, parts, gaps) && gaps != []
    ensures Cuts(Interleave(parts[1..], gaps[1..]), parts[1..], gaps[1..])
    ensures Split(s) == [parts[0]] + Split(Interleave(parts[1..], gaps[1..]))
  {
    CutsTail(s, parts, gaps);
    var p, gap, rest := parts[0], gaps[0], Interleave(parts[1..], gaps[1..]);
    CutAt(p, gap, rest);
    SplitStep(s, |p|, |gap|);
  }

  /** In a word, a gap and a rest that does not start with whitespace, the word and the gap are where `Split` cuts. */
  lemma CutAt(w: string, gap: string, rest: string)
    requires NoSpace(w) && gap != [] && AllSpace(gap) && (rest == [] || !IsSpace(rest[0]))
    ensures var s := w + gap + rest;
      WordLength(s) == |w| && GapLength(s[|w|..]) == |gap| && |w| + |gap| <= |s| &&
      s[..|w|] == w && s[|w| + |gap|..] == rest
  {
    var s := w + gap + rest;
    assert s[..|w|] == w && s[|w|] == gap[0];
    WordLengthAt(s, |w|);
    var t := s[|w|..];
    assert t[..|gap|] == gap && t == gap + rest;
    assert |gap| < |t| ==> t[|gap|] == rest[0];
    GapLengthAt(t, |gap|);
    assert s[|w| + |gap|..] == rest;
  }

  /** A whitespace-free prefix followed by the end or by whitespace is what `WordLength` measures. */
  lemma {:induction false} WordLengthAt(s: string, k: nat)
    requires k <= |s| && NoSpace(s[..k]) && (k == |s| || IsSpace(s[k]))
    ensures WordLength(s) == k
  {
    if k > 0 {
      assert s[..k][0] == s[0];
      assert s[1..][..k - 1] == s[..k][1..];
      WordLengthAt(s[1..], k - 1);
    }
  }

  /** A whitespace prefix followed by the end or by a non-space is what `GapLength` measures. */
  lemma {:induction false} GapLengthAt(s: string, g: nat)
    requires g <= |s| && AllSpace(s[..g]) && (g == |s| || !IsSpace(s[g]))
    ensures GapLength(s) == g
  {
    if g > 0 {
      assert s[..g][0] == s[0];
      assert s[1..][..g - 1] == s[..g][1..];
      GapLengthAt(s[1..], g - 1);
    }
  }

  /** An interleaving begins with the first character of its first piece. */
  lemma InterleaveHead(parts: seq<string>, gaps: seq<string>)
    requires |parts| == |gaps| + 1 && parts[0] != []
    ensures Interleave(parts, gaps) != [] && Interleave(parts, gaps)[0] == parts[0][0]
  {
  }

  /** A string without whitespace splits into itself alone. */
  lemma SplitSingle(s: string)
    requires NoSpace(s)
    ensures SplitShape(s, [s])
  {
    NonSpaceOfWord(s);
    assert Concat([s]) == s + Concat([]);
  }

  /** Cutting `s` after its first word and the whitespace run that follows. */
  lemma SplitAtGap(s: string, k: nat, g: nat, tail: seq<string>)
    requires k < |s| && NoSpace(s[..k]) && IsSpace(s[k]) && g == GapLength(s[k..])
    requires s[k + g..] == [] ==> tail == [[]]
    requires SplitShape(s[k + g..], tail)
    ensures SplitShape(s, [s[..k]] + tail)
  {
    GapAfterWord(s, k, g);
    SplitCons(s, s[..k], s[k..k + g], s[k + g..], tail);
  }

  /**
   * After the first word of `s` (its first `k` characters) comes a non-empty
   * whitespace run of length `g`, then the rest, which does not start with
   * whitespace.
   */
  lemma GapAfterWord(s: string, k: nat, g: nat)
    requires k < |s| && IsSpace(s[k]) && g == GapLength(s[k..])
    ensures 0 < g && k + g <= |s|
    ensures s == s[..k] + s[k..k + g] + s[k + g..] && AllSpace(s[k..k + g])
    ensures s[k + g..] == [] || !IsSpace(s[k + g..][0])
  {
    var rest := s[k..];
    assert rest[0] == s[k];
    assert rest[..g] == s[k..k + g];
    assert k + g < |s| ==> s[k + g..][0] == rest[g];
  }

  /** A word, then a whitespace run, then a split of the rest is a split of the whole. */
  lemma SplitCons(s: string, w: string, gap: string, r: string, tail: seq<string>)
    requires s == w + gap + r && NoSpace(w) && gap != [] && AllSpace(gap)
    requires r == [] || !IsSpace(r[0])
    requires r == [] ==> tail == [[]]
    requires SplitShape(r, tail)
    ensures SplitShape(s, [w] + tail)
  {
    SplitConsConcat(s, w, gap, r, tail);
    SplitConsPieces(w, r, tail);
    SplitConsEnds(s, w, gap, r, tail);
  }

  /** The pieces after the first word are whitespace-free, and the interior ones are non-empty. */
  lemma SplitConsPieces(w: string, r: string, tail: seq<string>)
    requires NoSpace(w) && (r == [] || !IsSpace(r[0]))
    requires r == [] ==> tail == [[]]
    requires SplitShape(r, tail)
    ensures forall p :: p in [w] + tail ==> NoSpace(p)
    ensures forall i :: 0 < i < |[w] + tail| - 1 ==> ([w] + tail)[i] != []
  {
    var parts := [w] + tail;
    assert forall p :: p in parts ==> p == w || p in tail;
    forall i | 0 < i < |parts| - 1
      ensures parts[i] != []
    {
      assert parts[i] == tail[i - 1];
    }
  }

  /** The first piece is the first word; the last piece is the last of the rest. */
  lemma SplitConsEnds(s: string, w: string, gap: string, r: string, tail: seq<string>)
    requires s == w + gap + r && gap != [] && AllSpace(gap) && NoSpace(w)
    requires |tail| >= 1
    requires tail[|tail| - 1] == [] <==> r == [] || IsSpace(r[|r| - 1])
    ensures ([w] + tail)[0] == [] <==> s == [] || IsSpace(s[0])
    ensures ([w] + tail)[|[w] + tail| - 1] == [] <==> s == [] || IsSpace(s[|s| - 1])
  {
    assert s[|s| - 1] == (if r == [] then gap[|gap| - 1] else r[|r| - 1]);
    assert s[0] == (if w == [] then gap[0] else w[0]);
  }

  lemma SplitConsConcat(s: string, w: string, gap: string, r: string, tail: seq<string>)
    requires s == w + gap + r && NoSpace(w) && AllSpace(gap)
    requires Concat(tail) == NonSpace(r)
    ensures Concat([w] + tail) == NonSpace(s)
  {
    assert ([w] + tail)[1..] == tail;
    NonSpaceOfWord(w);
    NonSpaceOfGap(gap);
    NonSpaceConcat(w, gap);
    NonSpaceConcat(w + gap, r);
    assert w + [] == w;
  }

  /** The pieces of a split, joined back without separators. */
  function Concat(parts: seq<string>): string
  {
    if parts == [] then [] else parts[0] + Concat(parts[1..])
  }

  /** The non-whitespace characters of `s`, in order. */
  function NonSpace(s: string): string
  {
    if s == [] then []
    else NonSpace(s[..|s| - 1]) + (if IsSpace(s[|s| - 1]) then [] else [s[|s| - 1]])
  }

  lemma {:induction false} NonSpaceConcat(a: string, b: string)
    ensures NonSpace(a + b) == NonSpace(a) + NonSpace(b)
    decreases |b|
  {
    if b == [] {
      assert a + b == a;
    } else {
      var b' := b[..|b| - 1];
      assert (a + b)[..|a + b| - 1] == a + b';
      NonSpaceConcat(a, b');
    }
  }

  lemma {:induction false} NonSpaceOfWord(s: string)
    requires NoSpace(s)
    ensures NonSpace(s) == s
  {
    if s != [] {
      NonSpaceOfWord(s[..|s| - 1]);
    }
  }

  lemma {:induction false} NonSpaceOfGap(s: string)
    requires AllSpace(s)
    ensures NonSpace(s) == []
  {
    if s != [] {
      NonSpaceOfGap(s[..|s| - 1]);
    }
  }

  /** `filter(Boolean)` over strings: the non-empty ones, in order. */
  function DropEmpty(parts: seq<string>): (r: seq<string>)
    ensures |r| <= |parts|
    ensures forall w :: w in r ==> w != [] && w in parts
    ensures multiset(r) == multiset(parts)[[] := 0]
    ensures |parts| == 1 ==> r == if parts[0] == [] then [] else parts
  {
    if parts == [] then []
    else
      assert parts == [parts[0]] + parts[1..];
      if parts[0] == [] then DropEmpty(parts[1..])
      else [parts[0]] + DropEmpty(parts[1..])
  }

  /** Filtering distributes over concatenation; with the one-piece case this fixes the order kept. */
  lemma {:induction false} DropEmptyConcat(a: seq<string>, b: seq<string>)
    ensures DropEmpty(a + b) == DropEmpty(a) + DropEmpty(b)
  {
    if a != [] {
      assert (a + b)[0] == a[0] && (a + b)[1..] == a[1..] + b;
      DropEmptyConcat(a[1..], b);
    } else {
      assert a + b == b;
    }
  }

  /** The words of `s`: every one is non-empty and holds no whitespace. */
  function Words(s: string): (ws: seq<string>)
    ensures forall w :: w in ws ==> w != [] && NoSpace(w)
  {
    DropEmpty(Split(s))
  }

  // ---------------------------------------------------------------------------
  // An independent count: maximal non-whitespace runs, counted at their start
  // ---------------------------------------------------------------------------

  /** Index `i` is the first character of a maximal run of non-whitespace. */
  predicate StartsRun(s: string, i: nat)
    requires i < |s|
  {
    !IsSpace(s[i]) && (i == 0 || IsSpace(s[i - 1]))
  }

  /** The number of indexes of `s` at which a maximal non-whitespace run starts. */
  function RunCount(s: string): nat
  {
    if s == [] then 0
    else RunCount(s[..|s| - 1]) + (if StartsRun(s, |s| - 1) then 1 else 0)
  }

  /** The last run of `a` and the first run of `b` merge into one when `a` and `b` are joined. */
  predicate Joins(a: string, b: string)
  {
    a != [] && b != [] && !IsSpace(a[|a| - 1]) && !IsSpace(b[0])
  }

  /** Runs add up under concatenation, less one where two runs merge at the seam. */
  lemma {:induction false} RunCountConcat(a: string, b: string)
    ensures RunCount(a + b) + (if Joins(a, b) then 1 else 0) == RunCount(a) + RunCount(b)
    decreases |b|
  {
    if b == [] {
      assert a + b == a;
    } else {
      var b' := b[..|b| - 1];
      assert (a + b)[..|a + b| - 1] == a + b';
      RunCountConcat(a, b');
      if |b| == 1 {
        assert a + b' == a;
      }
    }
  }

  /** A string of whitespace holds no run. */
  lemma {:induction false} RunCountAllSpace(s: string)
    requires AllSpace(s)
    ensures RunCount(s) == 0
  {
    if s != [] {
      RunCountAllSpace(s[..|s| - 1]);
    }
  }

  /** A non-empty string without whitespace is exactly one run. */
  lemma {:induction false} RunCountNoSpace(s: string)
    requires NoSpace(s)
    ensures RunCount(s) == if s == [] then 0 else 1
  {
    if |s| > 1 {
      RunCountNoSpace(s[..|s| - 1]);
    } else if |s| == 1 {
      assert s[..0] == [];
    }
  }

  /** Cutting `s` at a whitespace run loses no run and merges none. */
  lemma RunCountAcrossGap(w: string, gap: string, r: string)
    requires NoSpace(w) && gap != [] && AllSpace(gap)
    ensures RunCount(w + gap + r) == RunCount(w) + RunCount(r)
  {
    assert w + gap + r == w + (gap + r);
    assert (gap + r)[0] == gap[0];
    RunCountConcat(w, gap + r);
    RunCountConcat(gap, r);
    RunCountAllSpace(gap);
  }

  /** The first word of `s` is one run (none if empty); the rest after the whitespace run holds the others. */
  lemma RunCountAtGap(s: string, k: nat, g: nat)
    requires k < |s| && NoSpace(s[..k]) && IsSpace(s[k]) && g == GapLength(s[k..])
    ensures RunCount(s) == (if k == 0 then 0 else 1) + RunCount(s[k + g..])
  {
    GapAfterWord(s, k, g);
    RunCountAcrossGap(s[..k], s[k..k + g], s[k + g..]);
    RunCountNoSpace(s[..k]);
  }

  /** Filtering a piece followed by more pieces keeps the piece exactly when it is non-empty. */
  lemma DropEmptyCons(w: string, parts: seq<string>)
    ensures |DropEmpty([w] + parts)| == (if w == [] then 0 else 1) + |DropEmpty(parts)|
  {
    assert ([w] + parts)[0] == w && ([w] + parts)[1..] == parts;
  }

  /**
   * The tokeniser counts exactly the maximal non-whitespace runs: the empty
   * pieces that leading, trailing or repeated whitespace produce are never
   * counted, and no run is cut in two.
   */
  lemma {:induction false} WordsAreRuns(s: string)
    ensures |Words(s)| == RunCount(s)
    decreases |s|
  {
    var k := WordLength(s);
    if k == |s| {
      assert s[..k] == s;
      RunCountNoSpace(s);
    } else {
      var g := GapLength(s[k..]);
      GapAfterWord(s, k, g);
      var r := s[k + g..];
      RunCountAtGap(s, k, g);
      WordsAreRuns(r);
      assert Split(s) == [s[..k]] + Split(r);
      DropEmptyCons(s[..k], Split(r));
    }
  }

  /** The number of words `split(/\s+/g).filter(Boolean)` yields. */
  function WordCount(s: string): (n: nat)
    ensures n == RunCount(s)
  {
    WordsAreRuns(s);
    |Words(s)|
  }

  /**
   * A space between `t` and `s` adds no word of its own and keeps the last
   * word of `t` from merging with the first word of `s`.
   */
  lemma SpaceThenText(t: string, s: string)
    ensures RunCount(t + " " + s) == RunCount(t) + RunCount(s)
  {
    assert IsSpace(' ');
    assert t + " " + s == t + (" " + s);
    RunCountConcat(t, " " + s);
    RunCountConcat(" ", s);
    assert RunCount(" ") == RunCount([]) + 0 by {
      assert " "[..0] == [];
    }
  }

  // ---------------------------------------------------------------------------
  // The fold over the content blocks
  // ---------------------------------------------------------------------------

  /** One step of the fold: " " + heading, then " " + asText(body) when the body is an array. */
  function AppendBlock(text: string, block: ContentBlock, asText: seq<RichTextNode> -> string): (r: string)
    ensures |r| > |text| && r[..|text|] == text && r[|text|] == ' '
  {
    var withHeading := text + " " + block.heading;
    match block.body
    case ArrayBody(nodes) => withHeading + " " + asText(nodes)
    case NonArrayBody => withHeading
  }

  /** `content.reduce(..., "")`: the left fold of `AppendBlock` starting from the empty string. */
  function AllContentText(content: seq<ContentBlock>, asText: seq<RichTextNode> -> string): (r: string)
    ensures r == [] <==> content == []
    ensures r != [] ==> r[0] == ' '
    ensures |r| >= |content|
  {
    if content == [] then ""
    else AppendBlock(AllContentText(content[..|content| - 1], asText), content[|content| - 1], asText)
  }

  /** The words one block brings: its heading's, and its body's when the body is an array. */
  function BlockWords(block: ContentBlock, asText: seq<RichTextNode> -> string): nat
  {
    RunCount(block.heading) +
    match block.body
    case ArrayBody(nodes) => RunCount(asText(nodes))
    case NonArrayBody => 0
  }

  /** The sum of `BlockWords` over the blocks, block by block. */
  function TotalWords(content: seq<ContentBlock>, asText: seq<RichTextNode> -> string): nat
  {
    if content == [] then 0
    else TotalWords(content[..|content| - 1], asText) + BlockWords(content[|content| - 1], asText)
  }

  /** Appending one block to the text adds exactly that block's words. */
  lemma AppendBlockWords(text: string, block: ContentBlock, asText: seq<RichTextNode> -> string)
    ensures RunCount(AppendBlock(text, block, asText)) == RunCount(text) + BlockWords(block, asText)
  {
    SpaceThenText(text, block.heading);
    match block.body
    case ArrayBody(nodes) =>
      SpaceThenText(text + " " + block.heading, asText(nodes));
    case NonArrayBody =>
  }

  /**
   * The word count is additive over blocks: every piece the fold appends
   * starts with a space, so words of adjacent pieces never merge.
   */
  lemma {:induction false} WordCountIsAdditive(content: seq<ContentBlock>, asText: seq<RichTextNode> -> string)
    ensures WordCount(AllContentText(content, asText)) == TotalWords(content, asText)
  {
    if content != [] {
      WordCountIsAdditive(content[..|content| - 1], asText);
      AppendBlockWords(AllContentText(content[..|content| - 1], asText), content[|content| - 1], asText);
    }
  }

  /** Appending a block adds its heading's words, and its body's only when the body is an array. */
  lemma AppendedBlockWords(content: seq<ContentBlock>, block: ContentBlock, asText: seq<RichTextNode> -> string)
    ensures WordCount(AllContentText(content + [block], asText)) ==
            WordCount(AllContentText(content, asText)) + WordCount(block.heading) +
            (if block.body.ArrayBody? then WordCount(asText(block.body.nodes)) else 0)
  {
    assert (content + [block])[..|content + [block]| - 1] == content;
    AppendBlockWords(AllContentText(content, asText), block, asText);
  }

  /** A block whose body is not an array counts its heading's words only, whatever the body holds. */
  lemma NonArrayBodyCountsHeadingOnly(content: seq<ContentBlock>, heading: string, asText: seq<RichTextNode> -> string)
    ensures WordCount(AllContentText(content + [ContentBlock(heading, NonArrayBody)], asText)) ==
            WordCount(AllContentText(content, asText)) + WordCount(heading)
  {
    AppendedBlockWords(content, ContentBlock(heading, NonArrayBody), asText);
  }

  // ---------------------------------------------------------------------------
  // Minutes and the displayed string
  // ---------------------------------------------------------------------------

  /** `Math.ceil(words / 200)`: the least number of minutes whose words cover `words`. */
  function CeilMinutes(words: nat): (n: nat)
    ensures words <= WordsPerMinute * n
    ensures n > 0 ==> WordsPerMinute * (n - 1) < words
    ensures n == 0 <==> words == 0
  {
    (words + WordsPerMinute - 1) / WordsPerMinute
  }

  function DigitChar(d: nat): (c: char)
    requires d < 10
    ensures '0' <= c <= '9' && c as int - '0' as int == d
  {
    ('0' as int + d) as char
  }

  predicate IsDigits(s: string)
  {
    forall i :: 0 <= i < |s| ==> '0' <= s[i] <= '9'
  }

  /** The value of a string of decimal digits. */
  function DecimalValue(s: string): nat
    requires IsDigits(s)
  {
    if s == [] then 0
    else 10 * DecimalValue(s[..|s| - 1]) + (s[|s| - 1] as int - '0' as int)
  }

  /** How a template literal renders a non-negative integer: its decimal digits, no leading zero. */
  function Decimal(n: nat): (s: string)
    ensures |s| >= 1 && IsDigits(s)
    ensures s[0] == '0' ==> s == "0"
  {
    if n < 10 then [DigitChar(n)] else Decimal(n / 10) + [DigitChar(n % 10)]
  }

  /** Reading the digits back gives the number. */
  lemma {:induction false} DecimalRoundTrip(n: nat)
    ensures DecimalValue(Decimal(n)) == n
  {
    if n >= 10 {
      DecimalRoundTrip(n / 10);
      var s := Decimal(n);
      assert s[..|s| - 1] == Decimal(n / 10);
    }
  }

  /** `getMinutesToRead(content)`: the decimal minute count followed by " min". */
  function GetMinutesToRead(content: seq<ContentBlock>, asText: seq<RichTextNode> -> string): (r: string)
    ensures |r| > 4 && r[|r| - 4..] == " min"
    ensures IsDigits(r[..|r| - 4]) && (r[0] == '0' ==> r == "0 min")
    ensures DecimalValue(r[..|r| - 4]) == CeilMinutes(TotalWords(content, asText))
  {
    WordCountIsAdditive(content, asText);
    var minutes := CeilMinutes(WordCount(AllContentText(content, asText)));
    var digits := Decimal(minutes);
    DecimalRoundTrip(minutes);
    MinutesText(digits);
    digits + " min"
  }

  /** The displayed text: the digits, then " min", and the digits read back from it. */
  lemma MinutesText(digits: string)
    requires |digits| >= 1 && IsDigits(digits) && (digits[0] == '0' ==> digits == "0")
    ensures var r := digits + " min";
      |r| > 4 && r[|r| - 4..] == " min" && r[..|r| - 4] == digits &&
      IsDigits(r[..|r| - 4]) && (r[0] == '0' ==> r == "0 min")
  {
    var r := digits + " min";
    assert r[..|r| - 4] == digits && r[|r| - 4..] == " min";
  }

  /** No content: the fold yields "", which has no word, so the estimate is "0 min". */
  lemma EmptyContentIsZeroMinutes(asText: seq<RichTextNode> -> string)
    ensures GetMinutesToRead([], asText) == "0 min"
  {
    var r := GetMinutesToRead([], asText);
    assert DecimalValue(r[..|r| - 4]) == 0;
    assert r[..|r| - 4] == Decimal(0);
  }

  /** Appending a block never lowers the estimate. */
  lemma AppendingBlockNeverLowersMinutes(content: seq<ContentBlock>, block: ContentBlock, asText: seq<RichTextNode> -> string)
    ensures CeilMinutes(TotalWords(content, asText)) <= CeilMinutes(TotalWords(content + [block], asText))
  {
    assert (content + [block])[..|content + [block]| - 1] == content;
  }
}
