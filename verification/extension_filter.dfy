/** The filtering block of `MainWindow.fileslist_list_files`: the text of the
    filter box is split into words, and for each word the paths ending with
    its lower-case form and then those ending with its upper-case form are
    collected, in path order. Empty filter text leaves the list alone. */
module ExtensionFilter {

  /** A character Python's `str.split()` treats as whitespace (the code
      points for which `str.isspace()` holds). */
  predicate IsSpace(c: char) {
    var n := c as int;
    || 0x09 <= n <= 0x0D || 0x1C <= n <= 0x20
    || n == 0x85 || n == 0xA0 || n == 0x1680
    || 0x2000 <= n <= 0x200A
    || n == 0x2028 || n == 0x2029 || n == 0x202F || n == 0x205F || n == 0x3000
  }

  predicate NoSpace(w: string) {
    forall k :: 0 <= k < |w| ==> !IsSpace(w[k])
  }

  predicate AllSpace(t: string) {
    forall k :: 0 <= k < |t| ==> IsSpace(t[k])
  }

  /** What `split()` can yield: a non-empty run without whitespace. */
  predicate IsWord(w: string) {
    w != [] && NoSpace(w)
  }

  predicate AllWords(ws: seq<string>) {
    forall k :: 0 <= k < |ws| ==> IsWord(ws[k])
  }

  /** The number of non-whitespace characters at the front of `t`. */
  function WordLength(t: string): (n: nat)
    ensures n <= |t|
    ensures forall k :: 0 <= k < n ==> !IsSpace(t[k])
    ensures n == |t| || IsSpace(t[n])
  {
    if t == [] || IsSpace(t[0]) then 0 else 1 + WordLength(t[1..])
  }

  /** Python's `t.split()` with no separator: the maximal runs of
      non-whitespace characters, in order; never an empty word. */
  function Words(t: string): (ws: seq<string>)
    ensures AllWords(ws)
    ensures ws == [] <==> AllSpace(t)
    decreases |t|
  {
    if t == [] then []
    else if IsSpace(t[0]) then
      assert forall k :: 0 < k < |t| ==> t[k] == t[1..][k - 1];
      Words(t[1..])
    else
      var n := WordLength(t);
      var w := t[..n];
      assert forall k :: 0 <= k < n ==> w[k] == t[k];
      [w] + Words(t[n..])
  }

  /** `" ".join(ws)`. */
  function Unwords(ws: seq<string>): string {
    if ws == [] then ""
    else if |ws| == 1 then ws[0]
    else ws[0] + " " + Unwords(ws[1..])
  }

  /** A word followed by whitespace or nothing is exactly that word's length. */
  lemma {:induction false} WordLengthOf(w: string, rest: string)
    requires NoSpace(w)
    requires rest == [] || IsSpace(rest[0])
    ensures WordLength(w + rest) == |w|
    decreases |w|
  {
    if w != [] {
      assert (w + rest)[0] == w[0];
      assert (w + rest)[1..] == w[1..] + rest;
      WordLengthOf(w[1..], rest);
    }
  }

  /** A lone word splits into itself. */
  lemma WordsOfWord(w: string)
    requires IsWord(w)
    ensures Words(w) == [w]
  {
    WordLengthOf(w, []);
    assert w + [] == w;
    assert w[|w|..] == [];
  }

  /** A word, a space and more text split into the word and then the
      splitting of the rest. */
  lemma WordsOfCons(w: string, rest: string)
    requires IsWord(w)
    ensures Words(w + " " + rest) == [w] + Words(rest)
  {
    var t := w + " " + rest;
    WordLengthOf(w, " " + rest);
    assert w + (" " + rest) == t;
    assert t[..|w|] == w;
    assert t[|w|..] == " " + rest;
    assert (" " + rest)[1..] == rest;
  }

  /** Splitting words joined by single spaces gives the words back. */
  lemma {:induction false} WordsOfUnwords(ws: seq<string>)
    requires AllWords(ws)
    ensures Words(Unwords(ws)) == ws
    decreases |ws|
  {
    if |ws| == 1 {
      WordsOfWord(ws[0]);
    } else if |ws| > 1 {
      assert IsWord(ws[0]);
      assert AllWords(ws[1..]) by {
        assert forall k :: 0 <= k < |ws| - 1 ==> ws[1..][k] == ws[k + 1];
      }
      WordsOfCons(ws[0], Unwords(ws[1..]));
      WordsOfUnwords(ws[1..]);
    }
  }

  /** The front word of `a` is not lengthened by what follows it when that
      starts with whitespace. */
  lemma {:induction false} WordLengthStops(a: string, r: string)
    requires r == [] || IsSpace(r[0])
    ensures WordLength(a + r) == WordLength(a)
    decreases |a|
  {
    if a == [] {
      assert a + r == r;
    } else {
      assert (a + r)[0] == a[0];
      assert (a + r)[1..] == a[1..] + r;
      WordLengthStops(a[1..], r);
    }
  }

  /** Leading whitespace yields no word. */
  lemma {:induction false} WordsOfSpaces(sp: string, b: string)
    requires AllSpace(sp)
    ensures Words(sp + b) == Words(b)
    decreases |sp|
  {
    if sp == [] {
      assert sp + b == b;
    } else {
      assert (sp + b)[0] == sp[0];
      assert (sp + b)[1..] == sp[1..] + b;
      WordsOfSpaces(sp[1..], b);
    }
  }

  /** A non-empty run of whitespace separates: splitting around it splits
      each side on its own. With `WordsOfWord` and the empty case this fixes
      `split()` on every text, whatever whitespace runs it holds and however
      it begins or ends. */
  lemma {:induction false} WordsJoin(a: string, sp: string, b: string)
    requires AllSpace(sp) && |sp| >= 1
    ensures Words(a + sp + b) == Words(a) + Words(b)
    decreases |a|
  {
    var t := a + sp + b;
    if a == [] {
      assert t == sp + b;
      WordsOfSpaces(sp, b);
    } else if IsSpace(a[0]) {
      assert t[0] == a[0];
      assert t[1..] == a[1..] + sp + b;
      WordsJoin(a[1..], sp, b);
    } else {
      assert t == a + (sp + b);
      WordLengthStops(a, sp + b);
      var n := WordLength(a);
      assert t[0] == a[0];
      assert t[..n] == a[..n];
      assert t[n..] == a[n..] + sp + b;
      WordsJoin(a[n..], sp, b);
    }
  }

  function LowerChar(c: char): char {
    if 'A' <= c <= 'Z' then (c as int + 32) as char else c
  }

  function UpperChar(c: char): char {
    if 'a' <= c <= 'z' then (c as int - 32) as char else c
  }

  /** `s.lower()`, on the ASCII letters. */
  function Lower(s: string): (r: string)
    ensures |r| == |s|
    ensures forall k :: 0 <= k < |s| ==> r[k] == LowerChar(s[k])
  {
    seq(|s|, k requires 0 <= k < |s| => LowerChar(s[k]))
  }

  /** `s.upper()`, on the ASCII letters. */
  function Upper(s: string): (r: string)
    ensures |r| == |s|
    ensures forall k :: 0 <= k < |s| ==> r[k] == UpperChar(s[k])
  {
    seq(|s|, k requires 0 <= k < |s| => UpperChar(s[k]))
  }

  /** `x` ends with `suffix`. */
  predicate EndsWith(x: string, suffix: string) {
    |suffix| <= |x| && x[|x| - |suffix|..] == suffix
  }

  /** The paths that end with `suffix`, in their input order. */
  function Keep(paths: seq<string>, suffix: string): (r: seq<string>)
    ensures |r| <= |paths|
    ensures forall k :: 0 <= k < |r| ==> EndsWith(r[k], suffix)
    decreases |paths|
  {
    if paths == [] then []
    else (if EndsWith(paths[0], suffix) then [paths[0]] else []) + Keep(paths[1..], suffix)
  }

  /** The filtered list holds exactly the paths that end with the suffix. */
  lemma {:induction false} KeepMembers(paths: seq<string>, suffix: string, x: string)
    ensures x in Keep(paths, suffix) <==> x in paths && EndsWith(x, suffix)
    decreases |paths|
  {
    if paths != [] {
      KeepMembers(paths[1..], suffix, x);
      assert paths == [paths[0]] + paths[1..];
    }
  }

  /** Each path ending with the suffix is kept as often as it occurs. */
  lemma {:induction false} KeepCount(paths: seq<string>, suffix: string, x: string)
    ensures multiset(Keep(paths, suffix))[x] == if EndsWith(x, suffix) then multiset(paths)[x] else 0
    decreases |paths|
  {
    if paths != [] {
      KeepCount(paths[1..], suffix, x);
      assert paths == [paths[0]] + paths[1..];
    }
  }

  /** Filtering keeps input order: it distributes over concatenation. */
  lemma {:induction false} KeepAppend(a: seq<string>, b: seq<string>, suffix: string)
    ensures Keep(a + b, suffix) == Keep(a, suffix) + Keep(b, suffix)
    decreases |a|
  {
    if a != [] {
      var head := if EndsWith(a[0], suffix) then [a[0]] else [];
      assert (a + b)[0] == a[0] && (a + b)[1..] == a[1..] + b;
      KeepAppend(a[1..], b, suffix);
      assert Keep(a + b, suffix) == head + Keep(a[1..] + b, suffix);
      assert Keep(a, suffix) == head + Keep(a[1..], suffix);
    } else {
      assert a + b == b;
    }
  }

  /** What the loop over the filter words has gathered after the words
      `ws`: per word, the lower-case matches then the upper-case matches. */
  function Selected(ws: seq<string>, paths: seq<string>): seq<string>
    decreases |ws|
  {
    if ws == [] then []
    else
      var w := ws[|ws| - 1];
      Selected(ws[..|ws| - 1], paths) + Keep(paths, Lower(w)) + Keep(paths, Upper(w))
  }

  /** A path ends with a form of one of the words. */
  ghost predicate MatchesSome(x: string, ws: seq<string>) {
    exists k :: 0 <= k < |ws| && (EndsWith(x, Lower(ws[k])) || EndsWith(x, Upper(ws[k])))
  }

  /** The gathered list holds exactly the input paths that end with the
      lower- or upper-case form of some word. */
  lemma {:induction false} SelectedMembers(ws: seq<string>, paths: seq<string>)
    ensures forall x :: x in Selected(ws, paths) <==> x in paths && MatchesSome(x, ws)
    decreases |ws|
  {
    if ws != [] {
      var init := ws[..|ws| - 1];
      var w := ws[|ws| - 1];
      SelectedMembers(init, paths);
      forall x
        ensures x in Selected(ws, paths) <==> x in paths && MatchesSome(x, ws)
      {
        KeepMembers(paths, Lower(w), x);
        KeepMembers(paths, Upper(w), x);
        if MatchesSome(x, init) {
          var k :| 0 <= k < |init| && (EndsWith(x, Lower(init[k])) || EndsWith(x, Upper(init[k])));
          assert ws[k] == init[k];
        }
        if MatchesSome(x, ws) && !(EndsWith(x, Lower(w)) || EndsWith(x, Upper(w))) {
          var k :| 0 <= k < |ws| && (EndsWith(x, Lower(ws[k])) || EndsWith(x, Upper(ws[k])));
          assert k < |init| && init[k] == ws[k];
        }
      }
    }
  }

  /** A word whose lower- and upper-case forms coincide (no letters, as in
      `123`) takes every matching path twice. */
  lemma CaselessWordTwice(w: string, paths: seq<string>)
    requires Lower(w) == Upper(w)
    ensures forall x :: EndsWith(x, w) ==> multiset(Selected([w], paths))[x] == 2 * multiset(paths)[x]
  {
    assert Selected([w], paths) == [] + Keep(paths, Lower(w)) + Keep(paths, Upper(w));
    forall x | EndsWith(x, w)
      ensures multiset(Selected([w], paths))[x] == 2 * multiset(paths)[x]
    {
      var lw := Lower(w);
      assert lw == w;
      KeepCount(paths, lw, x);
    }
  }

  /** The extension filter, with the filter text and the folder's path list
      as parameters: empty text leaves the list as it is; otherwise the
      result collects, word by word, the paths ending with the word's
      lower-case form and then those ending with its upper-case form. */
  method FilterPaths(filterText: string, paths: seq<string>) returns (result: seq<string>)
    ensures filterText == [] ==> result == paths
    ensures filterText != [] ==> result == Selected(Words(filterText), paths)
    ensures forall x :: x in result ==> x in paths
    ensures filterText != [] ==>
      forall x :: x in result <==> x in paths && MatchesSome(x, Words(filterText))
    ensures filterText != [] && AllSpace(filterText) ==> result == []
  {
    result := paths;
    if filterText != [] {
      var filters := Words(filterText);
      var gathered: seq<string> := [];
      var i := 0;
      while i < |filters|
        invariant 0 <= i <= |filters|
        invariant gathered == Selected(filters[..i], paths)
      {
        var filt := filters[i];
        assert filters[..i + 1][..i] == filters[..i];
        gathered := gathered + Keep(paths, Lower(filt));
        gathered := gathered + Keep(paths, Upper(filt));
        i := i + 1;
      }
      assert filters[..i] == filters;
      SelectedMembers(filters, paths);
      result := gathered;
    }
  }
}
