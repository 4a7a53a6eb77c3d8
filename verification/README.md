# Frame sequences and extension filter — a Dafny model

This project models the string logic of the Frankenstein image browser (`main.py`):

- **`sortImageSequence._getFrameNumber`** finds the frame token of a path. A frame token is the leftmost
  occurrence of the class pattern `regexPattern`: a dot, 1 to 100 ASCII digits, then a dot. The function
  reports the token's integer value and its span. Here it is a hand-written left-to-right scan,
  `FrameToken.FindFrame`, returning `Option<Frame>`. It is proved equal to the declarative predicate
  `TokenAt`, which says what the regular expression matches.
- **`sortImageSequence.combinedPaths`** works on a list of paths:
  - it takes the smallest and largest frame among the paths that match;
  - it builds a `#` template and a `prefix.start-end.suffix` range string for every path, each cut at the
    span of the first path's token;
  - it then returns an empty dictionary.

  `SequencePaths.Trace` models everything the call computes. `SequencePaths.CombinedPaths` models what
  it returns. The two exceptions the call can raise are modelled as `Failure` values:
  - `MinOfEmpty`: `min()` of an empty list, when no path matches;
  - `NoneSubscript`: subscripting `None`, when the first path does not match.
- **The filtering block of `MainWindow.fileslist_list_files`** filters a path list by extension.
  `ExtensionFilter.FilterPaths` takes the filter text and the path list as parameters. It splits the text
  into words like Python's `str.split()`. For each word in order, it gathers the paths ending with the
  word's lower-case form, then those ending with its upper-case form.

Modules: `Results` (Option and Result), `Decimal` (`int()` of digit strings and `str()` of naturals),
`FrameToken`, `SequencePaths` and `ExtensionFilter`.

`main.py` builds the templates and range strings but never uses them: `combinedPaths` returns `{}`
(`main.py:294-301`), and the grouping loop that would fill the dictionary is commented out. The model
follows the code and does not invent the missing step.

## Model

| member | source | states |
|---|---|---|
| Decimal.ValueOfShow | main.py:287 | reading back the unpadded decimal text that `str()` writes for a frame gives the same number |
| Decimal.ShowOfValue | main.py:259-260 | a canonical digit string (no leading zero) is exactly `str(int(s))` |
| Decimal.LeadingZeroValue | main.py:259-260 | `int()` ignores a leading zero, so `007` has value 7 |
| Decimal.WidthKept | main.py:282 | `len(str(int(digits)))` equals the digit count exactly when the digits have no leading zero; a leading zero makes it shorter (`0001` gives fewer than 4) |
| Decimal.ShowWidth | main.py:282 | `len(str(int(digits)))` is never more than the digit count |
| FrameToken.RunLength | main.py:246 | the run counted is the longest run of digits from the position: all digits, ended by a non-digit or the end of the path |
| FrameToken.TokenEnd | main.py:246 | a match's end is fixed by its start: the digit run ends at the closing dot |
| FrameToken.MatchesAtIff | main.py:246 | the scanner's test at a position succeeds exactly when the pattern matches some text starting there, including the backtracking rule that 101+ digits never match |
| FrameToken.Scan | main.py:256 | the scan from a position returns the leftmost match at or after it, or `None` when there is none at or after it |
| FrameToken.FindFrame | main.py:249-263 | `None` exactly when the path contains no dot, 1 to 100 digits, dot. Otherwise the result is the leftmost such match; its span covers both dots, and its value is the decimal value of the digits |
| FrameToken.FrameShape | main.py:256-261 | a match's span starts and ends on a dot and is two longer than its run of 1 to 100 digits |
| FrameToken.LongRunNoMatch | main.py:246 | a dot followed by 101 or more digits is not a match at that dot |
| FrameToken.DigitCountBoundary | main.py:246 | a dot, n zeros and a dot has a frame token exactly when 1 <= n <= 100 |
| SequencePaths.SliceLaw | main.py:285-287 | the clamped slices used for every path satisfy `s[:n] + s[n:] == s`; the prefix is at most `n` long and, when shorter, is the whole path with nothing after it |
| SequencePaths.MatchedValues | main.py:271-272 | the frame values of the list are exactly those of the paths that match; paths without a match contribute nothing |
| SequencePaths.MinOf | main.py:272 | `min` of a non-empty list is an element no larger than any element |
| SequencePaths.MaxOf | main.py:273 | `max` of a non-empty list is an element no smaller than any element |
| SequencePaths.Trace | main.py:271-290 | raises `ValueError` exactly when no path matches, including the empty list. Raises `TypeError` exactly when some path matches but the first does not. Otherwise start <= end are the frames of matching paths and bound every matching path's frame, and there is one row per path cut at the first path's span |
| SequencePaths.CombinedPaths | main.py:267-301 | succeeds exactly when the list is non-empty and its first path matches, and then returns the empty dictionary. The failure is `ValueError` exactly when no path matches |
| SequencePaths.TemplateAtDots | main.py:285 | cut at a span bounded by two dots, a template keeps the text through the first dot and from the second dot on, with the hashes in between; its length changes by the width minus the cut-out digit count |
| SequencePaths.TemplateOwnSpan | main.py:282-285 | cut at its own token, a path's template is the path with the digit run replaced by `len(str(value))` hashes. It keeps the path's length exactly when the digits have no leading zero, and is never longer |
| SequencePaths.TemplateLength | main.py:285 | a template is as long as its clamped prefix, the placeholder and the clamped suffix; a path ending before the span start has no suffix |
| SequencePaths.TemplateEqualIff | main.py:285 | two templates cut at one span are equal exactly when the clamped texts before and after the span agree, for paths of any length |
| SequencePaths.SameTemplateIff | main.py:280-285 | any path has the first path's template exactly when its clamped text before and after the first span agrees with the first path's |
| SequencePaths.ShortPathClamped | main.py:285-287 | a path that ends before the first span's start is kept whole before the dots, with nothing after them, because Python slices are clamped |
| SequencePaths.SingletonRange | main.py:271-287 | a single matching path gives start = end = its frame, and its range string reads `N-N` |
| SequencePaths.RangeRoundTrip | main.py:287 | the text `str(start)-str(end)` reads back as the pair (start, end) |
| SequencePaths.RangeStringReadsBack | main.py:287 | in every range string, the text after the clamped prefix and its dot reads back as the pair of frames it was built from |
| ExtensionFilter.WordLength | main.py:92 | the front run counted has no whitespace and is ended by whitespace or by the end of the text |
| ExtensionFilter.Words | main.py:92 | `split()` yields only non-empty, whitespace-free words, and yields none exactly when the text is all whitespace |
| ExtensionFilter.WordsOfSpaces | main.py:92 | leading whitespace of any kind and length yields no word |
| ExtensionFilter.WordsJoin | main.py:92 | a non-empty whitespace run separates: the split of `a + spaces + b` is the split of `a` followed by the split of `b`; with the lone-word and all-whitespace cases this fixes `split()` on every text |
| ExtensionFilter.WordsOfCons | main.py:92 | a word, a space and more text split into that word followed by the split of the rest |
| ExtensionFilter.WordsOfUnwords | main.py:92 | splitting well-formed words joined by spaces gives back the same words |
| ExtensionFilter.Keep | main.py:98-99 | every kept path ends with the suffix, and the filtered list is no longer than the input |
| ExtensionFilter.KeepMembers | main.py:98-99 | a path is in the filtered list exactly when it is an input path that ends with the suffix |
| ExtensionFilter.KeepCount | main.py:98-99 | each path ending with the suffix is kept as many times as it occurs in the input; other paths are dropped |
| ExtensionFilter.KeepAppend | main.py:98-99 | filtering keeps input order: it distributes over concatenation |
| ExtensionFilter.SelectedMembers | main.py:97-100 | the gathered list holds exactly the input paths that end with the lower- or upper-case form of some word |
| ExtensionFilter.CaselessWordTwice | main.py:98-99 | a word whose lower and upper forms coincide takes every matching path twice |
| ExtensionFilter.FilterPaths | main.py:89-100 | empty filter text returns the list unchanged. Otherwise the result is the per-word lower-case then upper-case matches, each result is an input path, and membership is exactly "ends with a form of some word". Whitespace-only text gives the empty list |

## Left out

- The Qt window: construction, signal wiring, list widgets, the progress bar, message boxes and the image
  preview. These are user interface with no statable logic. The filter text that `FilterPaths` takes as a
  parameter is what the window reads from its filter box.
- The SQLite watch-list database and `Path.rglob` folder scanning. This is I/O through libraries that are
  not part of this model. The path list that `FilterPaths` filters is what the database returns.
- Logging and timers from the `blom` module, which is not part of this model.
- The `__main__` entry point and the commented scratch code at the end of `main.py`.
- Grouping by template, removing member paths and a sorted collapsed output. These exist only as a
  commented-out TODO; the call returns `{}`, and the model does not invent the missing step.
- ExtensionFilter.Lower: maps only the ASCII letters. Python's `str.lower()` uses full Unicode case
  mapping, which would need the Unicode tables.
- ExtensionFilter.Upper: maps only the ASCII letters, for the same reason. Python's `str.upper()` can
  even change the length of a string (`ß` becomes `SS`).
- `str(path)` in `_getFrameNumber`: paths are modelled as strings already, so the conversion is the
  identity.
