/** `sortImageSequence.combinedPaths`: the frame range over a list of paths
    and, per path, a `#` template and a `prefix.start-end.suffix` range
    string, both cut at the span of the FIRST path's frame token. The call
    then returns an empty dictionary, and it raises when no path has a frame
    token or when the first path has none. */
module SequencePaths {
  import opened Results
  import opened Decimal
  import opened FrameToken

  /** The two exceptions the call can raise: `min()` of an empty list
      (`ValueError`) and subscripting the `None` of an unmatched first path
      (`TypeError`). */
  datatype Crash = MinOfEmpty | NoneSubscript

  /** The template and range string built for one path. */
  datatype Row = Row(template: string, range: string)

  /** Everything the call computes before returning. */
  datatype Work = Work(startFrame: nat, endFrame: nat, rows: seq<Row>)

  /** Python's `s[:n]` for `n >= 0`, clamped to the length of `s`. */
  function Take(s: string, n: nat): string {
    if n <= |s| then s[..n] else s
  }

  /** Python's `s[n:]` for `n >= 0`, empty once `n` passes the end. */
  function Drop(s: string, n: nat): string {
    if n <= |s| then s[n..] else []
  }

  /** The slicing law `s[:n] + s[n:] == s`: the prefix is at most `n`
      long, and when it falls short of `n` it is all of `s`. */
  lemma SliceLaw(s: string, n: nat)
    ensures Take(s, n) + Drop(s, n) == s
    ensures |Take(s, n)| <= n
    ensures |Take(s, n)| < n ==> Take(s, n) == s && Drop(s, n) == []
  {
  }

  /** `"#" * w`. */
  function Hashes(w: nat): (r: string)
    ensures |r| == w
    ensures forall k :: 0 <= k < |r| ==> r[k] == '#'
  {
    seq(w, _ => '#')
  }

  /** The template of `path` cut at the span `[start, end)`, with a
      placeholder of `width` hashes between the dots. */
  function Template(path: string, start: nat, end: nat, width: nat): string {
    Take(path, start) + "." + Hashes(width) + "." + Drop(path, end)
  }

  /** The range string of `path` cut at the span `[start, end)`, with the
      unpadded frames `lo` and `hi` joined by a dash between the dots. */
  function RangeString(path: string, start: nat, end: nat, lo: nat, hi: nat): string {
    Take(path, start) + "." + Show(lo) + "-" + Show(hi) + "." + Drop(path, end)
  }

  /** Some path of the list has a frame token with this value. */
  ghost predicate FrameOfSome(paths: seq<string>, v: nat) {
    exists i :: 0 <= i < |paths| && FindFrame(paths[i]).Some? && FindFrame(paths[i]).value.value == v
  }

  /** The frame values of the paths that have a frame token; paths
      without one contribute nothing. */
  function MatchedValues(paths: seq<string>): (r: seq<nat>)
    ensures |r| <= |paths|
    ensures forall v :: v in r <==> FrameOfSome(paths, v)
    decreases |paths|
  {
    if paths == [] then
      []
    else
      var rest := MatchedValues(paths[1..]);
      assert forall v :: FrameOfSome(paths[1..], v) ==> FrameOfSome(paths, v) by {
        forall v | FrameOfSome(paths[1..], v)
          ensures FrameOfSome(paths, v)
        {
          var i :| 0 <= i < |paths[1..]| && FindFrame(paths[1..][i]).Some? && FindFrame(paths[1..][i]).value.value == v;
          assert paths[1..][i] == paths[i + 1];
        }
      }
      assert forall v :: FrameOfSome(paths, v) ==> (FindFrame(paths[0]).Some? && FindFrame(paths[0]).value.value == v) || FrameOfSome(paths[1..], v) by {
        forall v | FrameOfSome(paths, v)
          ensures (FindFrame(paths[0]).Some? && FindFrame(paths[0]).value.value == v) || FrameOfSome(paths[1..], v)
        {
          var i :| 0 <= i < |paths| && FindFrame(paths[i]).Some? && FindFrame(paths[i]).value.value == v;
          if i > 0 {
            assert paths[1..][i - 1] == paths[i];
          }
        }
      }
      match FindFrame(paths[0])
      case Some(f) => [f.value] + rest
      case None => rest
  }

  /** Python's `min` of a non-empty list. */
  function MinOf(xs: seq<nat>): (m: nat)
    requires |xs| > 0
    ensures m in xs
    ensures forall x :: x in xs ==> m <= x
  {
    if |xs| == 1 then xs[0]
    else
      var m := MinOf(xs[1..]);
      assert forall x :: x in xs[1..] ==> x in xs;
      assert forall x :: x in xs ==> x == xs[0] || x in xs[1..];
      if xs[0] <= m then xs[0] else m
  }

  /** Python's `max` of a non-empty list. */
  function MaxOf(xs: seq<nat>): (m: nat)
    requires |xs| > 0
    ensures m in xs
    ensures forall x :: x in xs ==> x <= m
  {
    if |xs| == 1 then xs[0]
    else
      var m := MaxOf(xs[1..]);
      assert forall x :: x in xs[1..] ==> x in xs;
      assert forall x :: x in xs ==> x == xs[0] || x in xs[1..];
      if xs[0] >= m then xs[0] else m
  }

  /** Every path's template and range string, cut at the first path's span
      with the width of `str` of the first path's frame value. */
  function Rows(paths: seq<string>, first: Frame, lo: nat, hi: nat): (rows: seq<Row>)
    ensures |rows| == |paths|
  {
    var width := |Show(first.value)|;
    seq(|paths|, i requires 0 <= i < |paths| =>
      Row(Template(paths[i], first.start, first.end, width),
          RangeString(paths[i], first.start, first.end, lo, hi)))
  }

  /** Everything `combinedPaths(paths)` computes, or the exception it
      raises: first the frame range over the matching paths, then the rows,
      which need the first path's match. */
  function Trace(paths: seq<string>): (r: Result<Work, Crash>)
    ensures r == Failure(MinOfEmpty) <==> forall i :: 0 <= i < |paths| ==> FindFrame(paths[i]).None?
    ensures r == Failure(NoneSubscript) <==>
      (exists i :: 0 <= i < |paths| && FindFrame(paths[i]).Some?) && FindFrame(paths[0]).None?
    ensures r.Success? ==> |paths| > 0 && FindFrame(paths[0]).Some? && |r.value.rows| == |paths|
    ensures r.Success? ==> r.value.rows == Rows(paths, FindFrame(paths[0]).value, r.value.startFrame, r.value.endFrame)
    ensures r.Success? ==> r.value.startFrame <= r.value.endFrame
    ensures r.Success? ==> FrameOfSome(paths, r.value.startFrame) && FrameOfSome(paths, r.value.endFrame)
    ensures r.Success? ==> forall i :: 0 <= i < |paths| && FindFrame(paths[i]).Some? ==>
      r.value.startFrame <= FindFrame(paths[i]).value.value <= r.value.endFrame
  {
    var values := MatchedValues(paths);
    if values == [] then
      assert forall i :: 0 <= i < |paths| && FindFrame(paths[i]).Some? ==> FrameOfSome(paths, FindFrame(paths[i]).value.value);
      Failure(MinOfEmpty)
    else
      assert FrameOfSome(paths, values[0]);
      var lo := MinOf(values);
      var hi := MaxOf(values);
      match FindFrame(paths[0])
      case None => Failure(NoneSubscript)
      case Some(first) =>
        assert forall i :: 0 <= i < |paths| && FindFrame(paths[i]).Some? ==> FindFrame(paths[i]).value.value in values by {
          forall i | 0 <= i < |paths| && FindFrame(paths[i]).Some?
            ensures FindFrame(paths[i]).value.value in values
          {
            assert FrameOfSome(paths, FindFrame(paths[i]).value.value);
          }
        }
        Success(Work(lo, hi, Rows(paths, first, lo, hi)))
  }

  /** `combinedPaths(paths)`: raises exactly when no path has a frame token
      or the first path has none, and otherwise returns the empty
      dictionary, whatever the paths. */
  function CombinedPaths(paths: seq<string>): (r: Result<map<string, string>, Crash>)
    ensures r.Success? <==> |paths| > 0 && FindFrame(paths[0]).Some?
    ensures r.Success? ==> r.value == map[]
    ensures r.Failure? ==> (r.error == MinOfEmpty <==> forall i :: 0 <= i < |paths| ==> FindFrame(paths[i]).None?)
  {
    match Trace(paths)
    case Success(_) => Success(map[])
    case Failure(e) => Failure(e)
  }

  /** Cut at a span that starts and ends on a dot, a template keeps the text
      up to and including the first dot and from the second dot on, and
      holds `width` hashes in place of what lay between. */
  lemma TemplateAtDots(p: string, start: nat, end: nat, width: nat)
    requires start + 2 <= end <= |p| && p[start] == '.' && p[end - 1] == '.'
    ensures Template(p, start, end, width) == p[..start + 1] + Hashes(width) + p[end - 1..]
    ensures |Template(p, start, end, width)| == |p| - (end - start - 2) + width
  {
  }

  /** A path's template cut at its own frame token: the digit run is
      replaced by `len(str(value))` hashes, as many as there are digits when
      they are written canonically and fewer with leading zeros. */
  lemma TemplateOwnSpan(p: string)
    requires FindFrame(p).Some?
    ensures var f := FindFrame(p).value;
      var w := Template(p, f.start, f.end, |Show(f.value)|);
      && w == p[..f.start + 1] + Hashes(|Show(f.value)|) + p[f.end - 1..]
      && (|w| == |p| <==> Canonical(TokenDigits(p, f.start, f.end)))
      && |w| <= |p|
  {
    var f := FindFrame(p).value;
    var digits := TokenDigits(p, f.start, f.end);
    var width := |Show(f.value)|;
    assert f.value == Value(digits);
    TemplateAtDots(p, f.start, f.end, width);
    WidthKept(digits);
    ShowWidth(digits);
  }

  /** Row `i` of a successful call: path `i` cut at the first path's span,
      with `len(str(...))` of the first path's frame as the placeholder
      width and the overall frame range as the range text. */
  lemma RowAt(paths: seq<string>, i: nat)
    requires 0 <= i < |paths| && FindFrame(paths[0]).Some?
    ensures var f, t := FindFrame(paths[0]).value, Trace(paths).value;
      t.rows[i] == Row(Template(paths[i], f.start, f.end, |Show(f.value)|),
                       RangeString(paths[i], f.start, f.end, t.startFrame, t.endFrame))
  {
  }

  /** Two templates cut at the same span with the same width are equal
      exactly when the texts before and after the span agree, clamped as
      Python clamps slices. */
  lemma TemplateEqualIff(p: string, q: string, start: nat, end: nat, width: nat)
    requires start <= end
    ensures Template(p, start, end, width) == Template(q, start, end, width) <==>
      Take(p, start) == Take(q, start) && Drop(p, end) == Drop(q, end)
  {
    var mid := "." + Hashes(width) + ".";
    var a, b := Template(p, start, end, width), Template(q, start, end, width);
    assert a == Take(p, start) + mid + Drop(p, end);
    assert b == Take(q, start) + mid + Drop(q, end);
    if a == b {
      TemplateLength(p, start, end, width);
      TemplateLength(q, start, end, width);
      CutEqual(Take(p, start), Drop(p, end), Take(q, start), Drop(q, end), mid);
    }
  }

  /** Equal texts with a common middle at the same place agree on both sides. */
  lemma CutEqual(x: string, y: string, x2: string, y2: string, mid: string)
    requires x + mid + y == x2 + mid + y2 && |x| == |x2|
    ensures x == x2 && y == y2
  {
    var t := x + mid + y;
    assert x == t[..|x|] && x2 == (x2 + mid + y2)[..|x|];
    assert y == t[|x| + |mid|..] && y2 == (x2 + mid + y2)[|x| + |mid|..];
  }

  /** A template is as long as its clamped prefix, the placeholder and the
      clamped suffix; a path that ends before `start` has no suffix. */
  lemma TemplateLength(p: string, start: nat, end: nat, width: nat)
    requires start <= end
    ensures |Template(p, start, end, width)| == |Take(p, start)| + width + 2 + |Drop(p, end)|
    ensures |Take(p, start)| < start ==> |Template(p, start, end, width)| == |Take(p, start)| + width + 2
    ensures |Take(p, start)| == start ==> |Template(p, start, end, width)| >= start + width + 2
  {
    if |Take(p, start)| < start {
      assert Drop(p, end) == [];
    }
  }

  /** A path has the first path's template exactly when it agrees with the
      first path before the first path's span and after it, clamped as
      Python clamps slices. */
  lemma SameTemplateIff(paths: seq<string>, i: nat)
    requires 0 <= i < |paths| && FindFrame(paths[0]).Some?
    ensures var f, rows := FindFrame(paths[0]).value, Trace(paths).value.rows;
      rows[i].template == rows[0].template <==>
        Take(paths[i], f.start) == Take(paths[0], f.start) && Drop(paths[i], f.end) == Drop(paths[0], f.end)
  {
    var f := FindFrame(paths[0]).value;
    RowAt(paths, 0);
    RowAt(paths, i);
    TemplateEqualIff(paths[i], paths[0], f.start, f.end, |Show(f.value)|);
  }

  /** A path that ends before the first path's span starts is kept whole in
      its template and range string, and nothing follows the closing dot:
      Python's slices are clamped. */
  lemma ShortPathClamped(paths: seq<string>, i: nat)
    requires 0 <= i < |paths| && FindFrame(paths[0]).Some?
    requires |paths[i]| <= FindFrame(paths[0]).value.start
    ensures var f, w := FindFrame(paths[0]).value, Trace(paths).value;
      && w.rows[i].template == paths[i] + "." + Hashes(|Show(f.value)|) + "."
      && w.rows[i].range == paths[i] + "." + Show(w.startFrame) + "-" + Show(w.endFrame) + "."
  {
    var f := FindFrame(paths[0]).value;
    RowAt(paths, i);
    assert Take(paths[i], f.start) == paths[i];
    assert Drop(paths[i], f.end) == [];
  }

  /** A single matching path: the range is `N-N`, its own frame twice. */
  lemma SingletonRange(p: string)
    requires FindFrame(p).Some?
    ensures var f := FindFrame(p).value;
      && Trace([p]).Success?
      && Trace([p]).value.startFrame == Trace([p]).value.endFrame == f.value
      && Trace([p]).value.rows[0].range == p[..f.start] + "." + Show(f.value) + "-" + Show(f.value) + "." + p[f.end..]
  {
  }

  /** Reads the `lo-hi` text between the dots of a range string: digits, a
      dash, digits. */
  function ParseRange(t: string): (r: Option<(nat, nat)>)
    ensures r.Some? ==> exists k :: 0 < k < |t| - 1 && t[k] == '-'
  {
    var k := DashAt(t, 0);
    if 0 < k < |t| - 1 && AllDigits(t[..k]) && AllDigits(t[k + 1..]) then
      Some((Value(t[..k]), Value(t[k + 1..])))
    else
      None
  }

  /** The position of the first dash at or after `k`, or `|t|` if none. */
  function DashAt(t: string, k: nat): (r: nat)
    requires k <= |t|
    ensures k <= r <= |t|
    ensures r < |t| ==> t[r] == '-'
    ensures forall m :: k <= m < r ==> t[m] != '-'
    decreases |t| - k
  {
    if k == |t| || t[k] == '-' then k else DashAt(t, k + 1)
  }

  /** The range text `Show(lo) + "-" + Show(hi)` can be read back: it
      determines both frames. */
  lemma {:induction false} RangeRoundTrip(lo: nat, hi: nat)
    ensures ParseRange(Show(lo) + "-" + Show(hi)) == Some((lo, hi))
  {
    var a, b := Show(lo), Show(hi);
    var t := a + "-" + b;
    assert forall m :: 0 <= m < |a| ==> t[m] == a[m];
    assert DashAt(t, 0) == |a| by {
      assert forall m :: 0 <= m < |a| ==> t[m] != '-';
      assert t[|a|] == '-';
      DashAtFirst(t, 0, |a|);
    }
    assert t[..|a|] == a;
    assert t[|a| + 1..] == b;
    ValueOfShow(lo);
    ValueOfShow(hi);
  }

  /** A dash with no dash before it (from `k` on) is the one `DashAt` finds. */
  lemma DashAtFirst(t: string, k: nat, d: nat)
    requires k <= d < |t| && t[d] == '-'
    requires forall m :: k <= m < d ==> t[m] != '-'
    ensures DashAt(t, k) == d
    decreases d - k
  {
  }

  /** The middle of `(a + b) + c` at `b`'s place is `b`. */
  lemma Middle(a: string, b: string, c: string)
    ensures (a + b + c)[|a|..|a| + |b|] == b
  {
  }

  /** In a range string, the clamped prefix and a dot are followed by the
      range text `Show(lo) + "-" + Show(hi)`. */
  lemma RangeTextAt(p: string, start: nat, end: nat, lo: nat, hi: nat)
    ensures var k, m := |Take(p, start)|, |Show(lo)| + 1 + |Show(hi)|;
      var r := RangeString(p, start, end, lo, hi);
      && k + 1 + m <= |r|
      && r[k + 1..k + 1 + m] == Show(lo) + "-" + Show(hi)
  {
    var text := Show(lo) + "-" + Show(hi);
    var pre := Take(p, start) + ".";
    var post := "." + Drop(p, end);
    assert RangeString(p, start, end, lo, hi) == pre + text + post;
    Middle(pre, text, post);
  }

  /** The text between the dots of a range string, cut wherever the clamped
      prefix ends, reads back as the two frames it was built from. */
  lemma RangeStringReadsBack(p: string, start: nat, end: nat, lo: nat, hi: nat)
    ensures var k, m := |Take(p, start)|, |Show(lo)| + 1 + |Show(hi)|;
      var r := RangeString(p, start, end, lo, hi);
      && k + 1 + m <= |r|
      && ParseRange(r[k + 1..k + 1 + m]) == Some((lo, hi))
  {
    RangeTextAt(p, start, end, lo, hi);
    RangeRoundTrip(lo, hi);
  }
}
