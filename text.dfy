/** The Python string operations the monitor relies on: `strip()`, `lower()`, `in`,
    `startswith`, `replace(old, "")`, `split("\n")`, `int()` and the three regular
    expressions `@(\w+)`, `\d+` and the `\w+`/`\d+` groups of the URL pattern.
    `\w`, `\d` and `lower()` are taken over ASCII; `strip()` uses Python's full list
    of whitespace characters. */
module Text {
  import opened Wrappers

  /** The characters for which Python's `str.isspace()` holds, which `strip()` removes. */
  predicate IsSpace(c: char) {
    || ('\t' <= c <= '\r')
    || ('\U{1C}' <= c <= '\U{1F}')
    || c == ' ' || c == '\U{85}' || c == '\U{A0}' || c == '\U{1680}'
    || ('\U{2000}' <= c <= '\U{200A}')
    || c == '\U{2028}' || c == '\U{2029}' || c == '\U{202F}' || c == '\U{205F}' || c == '\U{3000}'
  }

  /** `\d`, over ASCII. */
  predicate IsDigit(c: char) {
    '0' <= c <= '9'
  }

  /** `\w`, over ASCII: letters, digits and the underscore. */
  predicate IsWordChar(c: char) {
    ('a' <= c <= 'z') || ('A' <= c <= 'Z') || IsDigit(c) || c == '_'
  }

  predicate IsUpper(c: char) {
    'A' <= c <= 'Z'
  }

  predicate AllDigits(s: string) {
    forall k :: 0 <= k < |s| ==> IsDigit(s[k])
  }

  predicate AllWordChars(s: string) {
    forall k :: 0 <= k < |s| ==> IsWordChar(s[k])
  }

  /** `s.startswith(prefix)` */
  predicate StartsWith(s: string, prefix: string) {
    |prefix| <= |s| && s[..|prefix|] == prefix
  }

  /** `pat` occurs in `s` starting at index `k`. */
  predicate OccursAt(s: string, pat: string, k: int) {
    0 <= k && k + |pat| <= |s| && s[k..k + |pat|] == pat
  }

  lemma OccursInTail(s: string, pat: string)
    requires s != []
    ensures (exists k :: OccursAt(s[1..], pat, k)) ==> exists k :: OccursAt(s, pat, k)
    ensures !OccursAt(s, pat, 0) && (exists k :: OccursAt(s, pat, k)) ==> exists k :: OccursAt(s[1..], pat, k)
  {
    if k :| OccursAt(s[1..], pat, k) {
      assert s[1..][k..k + |pat|] == s[k + 1..k + 1 + |pat|];
      assert OccursAt(s, pat, k + 1);
    }
    if !OccursAt(s, pat, 0) && exists k :: OccursAt(s, pat, k) {
      var k :| OccursAt(s, pat, k);
      assert s[1..][k - 1..k - 1 + |pat|] == s[k..k + |pat|];
      assert OccursAt(s[1..], pat, k - 1);
    }
  }

  /** An occurrence fixes each character it covers. */
  lemma OccursAtChar(s: string, pat: string, k: int, j: int)
    requires 0 <= j < |pat|
    ensures OccursAt(s, pat, k) ==> s[k + j] == pat[j]
  {
    if OccursAt(s, pat, k) {
      assert s[k..k + |pat|][j] == s[k + j];
    }
  }

  /** Proof helper for the `author:text` key: the index of the first `c` in `s`, or `|s|`
      when there is none. */
  function IndexOf(s: string, c: char): nat
    decreases |s|
  {
    if s == [] || s[0] == c then 0 else 1 + IndexOf(s[1..], c)
  }

  /** The first `c` of `u + [c] + v`, when `u` has none, is the one after `u`. */
  lemma {:induction false} IndexOfAfter(u: string, c: char, v: string)
    requires c !in u
    ensures IndexOf(u + [c] + v, c) == |u|
    decreases |u|
  {
    if u != [] {
      assert (u + [c] + v)[1..] == u[1..] + [c] + v;
      IndexOfAfter(u[1..], c, v);
    }
  }

  /** A slice is the concatenation of its two halves. */
  lemma SliceSplit(s: string, a: int, b: int, c: int)
    requires 0 <= a <= b <= c <= |s|
    ensures s[a..c] == s[a..b] + s[b..c]
  {
  }

  /** Python's `pat in s` on strings. */
  function Contains(s: string, pat: string): bool
    decreases |s|
  {
    if |s| < |pat| then false
    else if StartsWith(s, pat) then true
    else Contains(s[1..], pat)
  }

  /** `pat in s` holds exactly when `pat` occurs at some index of `s`. */
  lemma {:induction false} ContainsIff(s: string, pat: string)
    ensures Contains(s, pat) <==> exists k :: OccursAt(s, pat, k)
    decreases |s|
  {
    if |s| < |pat| {
    } else if StartsWith(s, pat) {
      assert OccursAt(s, pat, 0);
    } else {
      ContainsIff(s[1..], pat);
      OccursInTail(s, pat);
    }
  }

  /** `s.replace(pat, "")`: removes the occurrences of `pat` found scanning left to right,
      without overlap. The result may still contain `pat` when removing one occurrence
      joins the pieces of another. */
  function RemoveAll(s: string, pat: string): string
    requires pat != []
    decreases |s|
  {
    if |s| < |pat| then s
    else if StartsWith(s, pat) then RemoveAll(s[|pat|..], pat)
    else [s[0]] + RemoveAll(s[1..], pat)
  }

  /** Removing never lengthens the text, and a text without the pattern is left as it is. */
  lemma {:induction false} RemoveAllSpec(s: string, pat: string)
    requires pat != []
    ensures |RemoveAll(s, pat)| <= |s|
    ensures !Contains(s, pat) ==> RemoveAll(s, pat) == s
    decreases |s|
  {
    if |s| < |pat| {
    } else if StartsWith(s, pat) {
      RemoveAllSpec(s[|pat|..], pat);
    } else {
      RemoveAllSpec(s[1..], pat);
      ContainsIff(s, pat);
      ContainsIff(s[1..], pat);
      OccursInTail(s, pat);
      assert [s[0]] + s[1..] == s;
    }
  }

  /** `lstrip()` */
  function TrimStart(s: string): string
    decreases |s|
  {
    if s != [] && IsSpace(s[0]) then TrimStart(s[1..]) else s
  }

  /** `lstrip()` removes exactly the leading whitespace. */
  lemma {:induction false} TrimStartSpec(s: string)
    ensures var r := TrimStart(s);
      && |r| <= |s| && r == s[|s| - |r|..]
      && (forall k :: 0 <= k < |s| - |r| ==> IsSpace(s[k]))
      && (r == [] || !IsSpace(r[0]))
    decreases |s|
  {
    if s != [] && IsSpace(s[0]) {
      TrimStartSpec(s[1..]);
    }
  }

  /** `rstrip()` */
  function TrimEnd(s: string): string
    decreases |s|
  {
    if s != [] && IsSpace(s[|s| - 1]) then TrimEnd(s[..|s| - 1]) else s
  }

  /** `rstrip()` removes exactly the trailing whitespace. */
  lemma {:induction false} TrimEndSpec(s: string)
    ensures var r := TrimEnd(s);
      && |r| <= |s| && r == s[..|r|]
      && (forall k :: |r| <= k < |s| ==> IsSpace(s[k]))
      && (r == [] || !IsSpace(r[|r| - 1]))
    decreases |s|
  {
    if s != [] && IsSpace(s[|s| - 1]) {
      TrimEndSpec(s[..|s| - 1]);
    }
  }

  /** `strip()` */
  function Strip(s: string): string {
    TrimEnd(TrimStart(s))
  }

  /** `strip()` removes exactly the surrounding whitespace: the stripped text sits at
      offset `a` of `s`, only whitespace lies before and after it, and it neither starts
      nor ends with whitespace. */
  lemma StripSpec(s: string, a: nat)
    requires a == |s| - |TrimStart(s)|
    ensures var r := Strip(s);
      && a + |r| <= |s| && r == s[a..a + |r|]
      && (forall k :: 0 <= k < a ==> IsSpace(s[k]))
      && (forall k :: a + |r| <= k < |s| ==> IsSpace(s[k]))
      && (r == [] || (!IsSpace(r[0]) && !IsSpace(r[|r| - 1])))
  {
    var t := TrimStart(s);
    var r := TrimEnd(t);
    TrimStartSpec(s);
    TrimEndSpec(t);
    assert t == s[a..];
    assert s[a..][..|r|] == s[a..a + |r|];
    forall k | a + |r| <= k < |s| ensures IsSpace(s[k]) {
      assert s[k] == t[k - a];
    }
    if r != [] {
      assert r[0] == t[0];
    }
  }

  /** The stripped text neither starts nor ends with whitespace. */
  lemma StripEnds(s: string)
    ensures Strip(s) == [] || (!IsSpace(Strip(s)[0]) && !IsSpace(Strip(s)[|Strip(s)| - 1]))
  {
    TrimStartSpec(s);
    StripSpec(s, |s| - |TrimStart(s)|);
  }

  function LowerChar(c: char): char {
    if IsUpper(c) then (c as int + 32) as char else c
  }

  /** `lower()`, over ASCII. */
  function Lower(s: string): string {
    seq(|s|, k requires 0 <= k < |s| => LowerChar(s[k]))
  }

  /** Lower-casing never removes an occurrence of a pattern that has no upper-case letter:
      punctuation and non-Latin characters pass through unchanged. */
  lemma LowerKeepsOccurrence(s: string, pat: string)
    requires forall j :: 0 <= j < |pat| ==> !IsUpper(pat[j])
    ensures Contains(s, pat) ==> Contains(Lower(s), pat)
  {
    ContainsIff(s, pat);
    ContainsIff(Lower(s), pat);
    if Contains(s, pat) {
      var k :| OccursAt(s, pat, k);
      forall j | 0 <= j < |pat| ensures Lower(s)[k + j] == pat[j] {
        assert s[k..k + |pat|][j] == pat[j];
      }
      assert Lower(s)[k..k + |pat|] == pat;
      assert OccursAt(Lower(s), pat, k);
    }
  }

  /** Lower-casing carries every occurrence of a pattern over to an occurrence of the
      lower-cased pattern, so a case-insensitive search finds what an exact one does. */
  lemma LowerMapsOccurrence(s: string, pat: string)
    ensures Contains(s, pat) ==> Contains(Lower(s), Lower(pat))
  {
    ContainsIff(s, pat);
    ContainsIff(Lower(s), Lower(pat));
    if Contains(s, pat) {
      var k :| OccursAt(s, pat, k);
      forall j | 0 <= j < |pat| ensures Lower(s)[k + j] == Lower(pat)[j] {
        assert s[k..k + |pat|][j] == pat[j];
      }
      assert Lower(s)[k..k + |pat|] == Lower(pat);
      assert OccursAt(Lower(s), Lower(pat), k);
    }
  }

  /** The class a regular-expression `+` run is taken from. */
  datatype CharClass = Word | Digit

  predicate InClass(c: char, cls: CharClass) {
    match cls
    case Word => IsWordChar(c)
    case Digit => IsDigit(c)
  }

  /** The greedy match of `\w+` or `\d+` at index `q`: the longest run of characters of
      the class starting there (empty when `s[q]` is not of the class). */
  function Run(s: string, q: nat, cls: CharClass): string
    requires q <= |s|
    decreases |s| - q
  {
    if q < |s| && InClass(s[q], cls) then [s[q]] + Run(s, q + 1, cls) else []
  }

  /** The run is a slice of `s` made of the class, and it cannot be extended. */
  lemma {:induction false} RunSpec(s: string, q: nat, cls: CharClass)
    requires q <= |s|
    ensures var r := Run(s, q, cls);
      && q + |r| <= |s| && r == s[q..q + |r|]
      && (forall k :: 0 <= k < |r| ==> InClass(r[k], cls))
      && (q + |r| == |s| || !InClass(s[q + |r|], cls))
    decreases |s| - q
  {
    if q < |s| && InClass(s[q], cls) {
      RunSpec(s, q + 1, cls);
    }
  }

  /** A word run is made of word characters and a digit run of digits. */
  lemma RunChars(s: string, q: nat, cls: CharClass)
    requires q <= |s|
    ensures cls == Word ==> AllWordChars(Run(s, q, cls))
    ensures cls == Digit ==> AllDigits(Run(s, q, cls))
  {
    var r := Run(s, q, cls);
    RunSpec(s, q, cls);
    forall k | 0 <= k < |r| ensures InClass(r[k], cls) {
    }
  }

  /** A run of the class followed by the end or by a character outside the class is
      exactly what the greedy match returns. */
  lemma {:induction false} RunIs(s: string, q: nat, cls: CharClass, w: string)
    requires q + |w| <= |s| && s[q..q + |w|] == w
    requires forall k :: 0 <= k < |w| ==> InClass(w[k], cls)
    requires q + |w| == |s| || !InClass(s[q + |w|], cls)
    ensures Run(s, q, cls) == w
    decreases |w|
  {
    if w != [] {
      assert s[q + 1..q + 1 + |w[1..]|] == w[1..];
      RunIs(s, q + 1, cls, w[1..]);
    }
  }

  /** A word-character string followed by the end or a non-word character is the word
      run there. */
  lemma WordRunIs(s: string, q: nat, w: string)
    requires q + |w| <= |s| && s[q..q + |w|] == w && AllWordChars(w)
    requires q + |w| == |s| || !IsWordChar(s[q + |w|])
    ensures Run(s, q, Word) == w
  {
    forall k | 0 <= k < |w| ensures InClass(w[k], Word) {
    }
    RunIs(s, q, Word, w);
  }

  /** A digit string followed by the end or a non-digit is the digit run there. */
  lemma DigitRunIs(s: string, q: nat, w: string)
    requires q + |w| <= |s| && s[q..q + |w|] == w && AllDigits(w)
    requires q + |w| == |s| || !IsDigit(s[q + |w|])
    ensures Run(s, q, Digit) == w
  {
    forall k | 0 <= k < |w| ensures InClass(w[k], Digit) {
    }
    RunIs(s, q, Digit, w);
  }

  /** A match of `@(\w+)` starts at index `q` of `s`. */
  predicate HandleAt(s: string, q: int) {
    0 <= q && q + 1 < |s| && s[q] == '@' && IsWordChar(s[q + 1])
  }

  /** `q` is the leftmost match of `@(\w+)` at or after `p`. */
  predicate FirstHandleAt(s: string, p: int, q: int) {
    p <= q && HandleAt(s, q) && forall q' :: p <= q' < q ==> !HandleAt(s, q')
  }

  function FirstHandleFrom(s: string, p: nat): Option<string>
    requires p <= |s|
    decreases |s| - p
  {
    if p + 1 >= |s| then None
    else if HandleAt(s, p) then Some(Run(s, p + 1, Word))
    else FirstHandleFrom(s, p + 1)
  }

  /** Group 1 of `re.search(r'@(\w+)', s)`: the word-character run after the leftmost `@`
      that is followed by a word character, or `None` when there is no such `@`. */
  function FirstHandle(s: string): Option<string> {
    FirstHandleFrom(s, 0)
  }

  lemma {:induction false} FirstHandleFromSpec(s: string, p: nat)
    requires p <= |s|
    ensures var h := FirstHandleFrom(s, p);
      && (h.None? <==> forall q :: p <= q ==> !HandleAt(s, q))
      && (h.Some? ==> exists q :: FirstHandleAt(s, p, q) && h.value == Run(s, q + 1, Word))
    decreases |s| - p
  {
    if p + 1 >= |s| {
    } else if HandleAt(s, p) {
      assert FirstHandleAt(s, p, p);
    } else {
      FirstHandleFromSpec(s, p + 1);
      var h := FirstHandleFrom(s, p + 1);
      if h.Some? {
        var q :| FirstHandleAt(s, p + 1, q) && h.value == Run(s, q + 1, Word);
        assert FirstHandleAt(s, p, q);
      }
    }
  }

  /** `re.search(r'@(\w+)', s)` finds a match exactly when some `@` is followed by a word
      character; the handle it captures is the whole word-character run after the leftmost
      such `@`, so it is non-empty and made of word characters. */
  lemma FirstHandleSpec(s: string)
    ensures FirstHandle(s).None? <==> forall q :: 0 <= q ==> !HandleAt(s, q)
    ensures FirstHandle(s).Some? ==>
      exists q :: && FirstHandleAt(s, 0, q) && FirstHandle(s).value == Run(s, q + 1, Word)
                  && FirstHandle(s).value != [] && AllWordChars(FirstHandle(s).value)
  {
    FirstHandleFromSpec(s, 0);
    if FirstHandle(s).Some? {
      var q :| FirstHandleAt(s, 0, q) && FirstHandle(s).value == Run(s, q + 1, Word);
      RunSpec(s, q + 1, Word);
    }
  }

  /** `re.findall(r'\d+', s[p..])`: the maximal digit runs, left to right. */
  function DigitRunsFrom(s: string, p: nat): seq<string>
    requires p <= |s|
    decreases |s| - p
  {
    if p == |s| then []
    else if IsDigit(s[p]) then
      var d := Run(s, p, Digit);
      RunSpec(s, p, Digit);
      [d] + DigitRunsFrom(s, p + |d|)
    else DigitRunsFrom(s, p + 1)
  }

  function DigitRuns(s: string): seq<string> {
    DigitRunsFrom(s, 0)
  }

  /** Every run found is a non-empty string of digits. */
  lemma {:induction false} DigitRunsAreDigits(s: string, p: nat)
    requires p <= |s|
    ensures forall k :: 0 <= k < |DigitRunsFrom(s, p)| ==>
      DigitRunsFrom(s, p)[k] != [] && AllDigits(DigitRunsFrom(s, p)[k])
    decreases |s| - p
  {
    if p == |s| {
    } else if IsDigit(s[p]) {
      var d := Run(s, p, Digit);
      RunSpec(s, p, Digit);
      assert InClass(s[p], Digit) && d != [];
      DigitRunsAreDigits(s, p + |d|);
    } else {
      DigitRunsAreDigits(s, p + 1);
    }
  }

  /** No run is found exactly when there is no digit. */
  lemma {:induction false} NoDigitRuns(s: string, p: nat)
    requires p <= |s|
    ensures DigitRunsFrom(s, p) == [] <==> forall k :: p <= k < |s| ==> !IsDigit(s[k])
    decreases |s| - p
  {
    if p < |s| && !IsDigit(s[p]) {
      NoDigitRuns(s, p + 1);
    }
  }

  /** The first run found is the maximal run at the first digit. */
  lemma {:induction false} FirstDigitRun(s: string, p: nat)
    requires p <= |s| && DigitRunsFrom(s, p) != []
    ensures exists f :: && p <= f < |s| && IsDigit(s[f])
                        && (forall k :: p <= k < f ==> !IsDigit(s[k]))
                        && DigitRunsFrom(s, p)[0] == Run(s, f, Digit)
    decreases |s| - p
  {
    if !IsDigit(s[p]) {
      FirstDigitRun(s, p + 1);
      var f :| && p + 1 <= f < |s| && IsDigit(s[f])
               && (forall k :: p + 1 <= k < f ==> !IsDigit(s[k]))
               && DigitRunsFrom(s, p + 1)[0] == Run(s, f, Digit);
      assert forall k :: p <= k < f ==> !IsDigit(s[k]);
    }
  }

  function DigitValue(c: char): nat {
    if IsDigit(c) then c as int - '0' as int else 0
  }

  /** The value of a string of ASCII digits, most significant first. */
  function DecimalValue(d: string): nat {
    if d == [] then 0 else 10 * DecimalValue(d[..|d| - 1]) + DigitValue(d[|d| - 1])
  }

  /** CPython's default limit on the digits `int()` converts from a decimal string
      (`sys.int_info.default_max_str_digits`). */
  const MaxStrDigits := 4300

  /** `int(d)` for a string of ASCII digits: its value, or `None` for the `ValueError`
      raised when it has more than `MaxStrDigits` digits. */
  function ParseInt(d: string): Option<nat> {
    if |d| > MaxStrDigits then None else Some(DecimalValue(d))
  }

  /** `s.split("\n")`: the pieces between newline characters, at least one. */
  function SplitLines(s: string): (lines: seq<string>)
    ensures |lines| >= 1
  {
    if s == [] then [""]
    else
      var rest := SplitLines(s[1..]);
      if s[0] == '\n' then [""] + rest
      else [[s[0]] + rest[0]] + rest[1..]
  }

  /** No line of a split holds a newline. */
  lemma {:induction false} SplitLinesHaveNoNewline(s: string)
    ensures forall k :: 0 <= k < |SplitLines(s)| ==> '\n' !in SplitLines(s)[k]
  {
    if s != [] {
      SplitLinesHaveNoNewline(s[1..]);
    }
  }

  /** `"\n".join(lines)` */
  function JoinLines(lines: seq<string>): string
    requires |lines| >= 1
  {
    if |lines| == 1 then lines[0] else lines[0] + "\n" + JoinLines(lines[1..])
  }

  /** Splitting loses nothing: joining the lines back gives the snapshot text. */
  lemma {:induction false} JoinSplitLines(s: string)
    ensures JoinLines(SplitLines(s)) == s
  {
    if s != [] {
      JoinSplitLines(s[1..]);
      var rest := SplitLines(s[1..]);
      if s[0] == '\n' {
        assert SplitLines(s)[1..] == rest;
      } else if |rest| > 1 {
        assert SplitLines(s)[1..] == rest[1..];
      }
    }
  }

  /** Splitting text joined from newline-free lines gives those lines back. */
  lemma {:induction false} SplitJoinLines(lines: seq<string>)
    requires |lines| >= 1
    requires forall k :: 0 <= k < |lines| ==> '\n' !in lines[k]
    ensures SplitLines(JoinLines(lines)) == lines
  {
    if |lines| == 1 {
      SplitLineWithoutNewline(lines[0]);
    } else {
      SplitJoinLines(lines[1..]);
      SplitLinePrefix(lines[0], JoinLines(lines[1..]));
      assert [lines[0]] + lines[1..] == lines;
    }
  }

  lemma {:induction false} SplitLineWithoutNewline(s: string)
    requires '\n' !in s
    ensures SplitLines(s) == [s]
  {
    if s != [] {
      SplitLineWithoutNewline(s[1..]);
      assert [s[0]] + s[1..] == s;
    }
  }

  lemma {:induction false} SplitLinePrefix(line: string, tail: string)
    requires '\n' !in line
    ensures SplitLines(line + "\n" + tail) == [line] + SplitLines(tail)
  {
    if line == [] {
      assert line + "\n" + tail == "\n" + tail;
      assert ("\n" + tail)[1..] == tail;
    } else {
      var s := line + "\n" + tail;
      assert s[1..] == line[1..] + "\n" + tail;
      SplitLinePrefix(line[1..], tail);
      assert [s[0]] + line[1..] == line;
    }
  }
}
