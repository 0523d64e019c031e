/** Name normalisation for shader snapshots: a test case's display name
    becomes the file stem of its baseline image. The input is read word by
    word as a C++ string stream does (`operator>>` in the classic "C"
    locale), each word is capitalised (first character upper case, the rest
    lower case) and the words are concatenated. */
module VerifierName {

  /** `isspace` in the "C" locale: space, tab, newline, vertical tab, form
      feed and carriage return. */
  predicate IsSpace(c: char) {
    c == ' ' || '\t' <= c <= '\r'
  }

  predicate IsLowerLetter(c: char) { 'a' <= c <= 'z' }

  predicate IsUpperLetter(c: char) { 'A' <= c <= 'Z' }

  /** `std::toupper` in the "C" locale: only ASCII letters change. */
  function Upper(c: char): char {
    if IsLowerLetter(c) then (c as int - 32) as char else c
  }

  /** `std::tolower` in the "C" locale. */
  function Lower(c: char): char {
    if IsUpperLetter(c) then (c as int + 32) as char else c
  }

  function LowerAll(s: string): (r: string)
    ensures |r| == |s|
  {
    seq(|s|, k requires 0 <= k < |s| => Lower(s[k]))
  }

  /** Lower-casing leaves a text without upper-case letters unchanged. */
  lemma LowerAllKeepsLowercase(s: string)
    requires forall k :: 0 <= k < |s| ==> !IsUpperLetter(s[k])
    ensures LowerAll(s) == s
  {
  }

  /** The input's characters with every whitespace character dropped. */
  function NonSpace(s: string): string {
    if |s| == 0 then ""
    else (if IsSpace(s[0]) then "" else [s[0]]) + NonSpace(s[1..])
  }

  /** Length of the longest whitespace-free prefix of `s`. */
  function WordLen(s: string): (n: nat)
    ensures n <= |s|
    ensures forall k :: 0 <= k < n ==> !IsSpace(s[k])
    ensures n < |s| ==> IsSpace(s[n])
  {
    if |s| == 0 || IsSpace(s[0]) then 0 else 1 + WordLen(s[1..])
  }

  /** The words `operator>>` extracts from `s`, in order: the maximal runs
      of non-whitespace characters. */
  function Words(s: string): seq<string>
    decreases |s|
  {
    if |s| == 0 then []
    else if IsSpace(s[0]) then Words(s[1..])
    else
      var n := WordLen(s);
      [s[..n]] + Words(s[n..])
  }

  /** A word with its first character upper-cased and the others
      lower-cased. The result equals the word up to letter case, has no
      lower-case letter in front and no upper-case letter after it. */
  function Capitalize(w: string): string {
    if |w| == 0 then w else [Upper(w[0])] + LowerAll(w[1..])
  }

  /** Capitalising keeps the length, the whitespace and the case-folded
      text; the first character is then no lower-case letter and no later
      one an upper-case letter. */
  lemma CapitalizeSpec(w: string)
    ensures |Capitalize(w)| == |w|
    ensures LowerAll(Capitalize(w)) == LowerAll(w)
    ensures |w| > 0 ==> !IsLowerLetter(Capitalize(w)[0])
    ensures forall k :: 1 <= k < |w| ==> !IsUpperLetter(Capitalize(w)[k])
    ensures forall k :: 0 <= k < |w| ==> (IsSpace(Capitalize(w)[k]) <==> IsSpace(w[k]))
  {
    if |w| > 0 {
      var r := Capitalize(w);
      forall k | 1 <= k < |w|
        ensures r[k] == Lower(w[k])
      {
        assert r[k] == LowerAll(w[1..])[k - 1];
      }
      forall k | 0 <= k < |w|
        ensures Lower(r[k]) == Lower(w[k])
      {
      }
      assert LowerAll(r) == LowerAll(w);
    }
  }

  function CapitalizeAll(ws: seq<string>): string {
    if |ws| == 0 then "" else Capitalize(ws[0]) + CapitalizeAll(ws[1..])
  }

  /** The file stem the source computes for a test-case name. */
  function Stem(s: string): string {
    CapitalizeAll(Words(s))
  }

  /** `ss >> word`: skips leading whitespace from `start`, then reads the
      longest run of non-whitespace characters. `ok` is the stream state
      after the extraction: false when only whitespace was left. */
  method ExtractWord(input: string, start: nat) returns (ok: bool, word: string, next: nat)
    requires start <= |input|
    ensures start <= next <= |input|
    ensures ok <==> Words(input[start..]) != []
    ensures ok ==> |word| > 0 && start < next && Words(input[start..]) == [word] + Words(input[next..])
  {
    var p := SkipSpace(input, start);
    var q := ScanWord(input, p);
    FirstWordAt(input, start, p, q);
    ok := p < q;
    word := input[p..q];
    next := q;
  }

  /** The whitespace-skipping loop of `ss >> word`: stops at the first
      non-whitespace character at or after `start`, or at the end. */
  method SkipSpace(input: string, start: nat) returns (p: nat)
    requires start <= |input|
    ensures start <= p <= |input|
    ensures p < |input| ==> !IsSpace(input[p])
    ensures forall k :: start <= k < p ==> IsSpace(input[k])
    ensures Words(input[start..]) == Words(input[p..])
  {
    p := start;
    while p < |input| && IsSpace(input[p])
      invariant start <= p <= |input|
      invariant forall k :: start <= k < p ==> IsSpace(input[k])
      invariant Words(input[start..]) == Words(input[p..])
    {
      SkipSpaceAt(input, p);
      p := p + 1;
    }
  }

  /** The word-reading loop of `ss >> word`: stops at the first whitespace
      character at or after `p`, or at the end. */
  method ScanWord(input: string, p: nat) returns (q: nat)
    requires p <= |input|
    ensures p <= q <= |input|
    ensures forall k :: p <= k < q ==> !IsSpace(input[k])
    ensures q < |input| ==> IsSpace(input[q])
  {
    q := p;
    while q < |input| && !IsSpace(input[q])
      invariant p <= q <= |input|
      invariant forall k :: p <= k < q ==> !IsSpace(input[k])
    {
      q := q + 1;
    }
  }

  /** Where the two loops of `ExtractWord` stop: after the leading
      whitespace, and after the word that follows it. */
  lemma FirstWordAt(input: string, start: nat, p: nat, q: nat)
    requires start <= p <= q <= |input|
    requires Words(input[start..]) == Words(input[p..])
    requires p < |input| ==> !IsSpace(input[p])
    requires forall k :: p <= k < q ==> !IsSpace(input[k])
    requires q < |input| ==> IsSpace(input[q])
    ensures p < q <==> Words(input[start..]) != []
    ensures p < q ==> Words(input[start..]) == [input[p..q]] + Words(input[q..])
  {
    if p < q {
      WordAt(input, p, q);
    } else {
      assert p == |input|;
      assert input[p..] == [];
    }
  }

  /** A whitespace-free run `input[p..q]` ended by whitespace or by the end
      of the input is the first word of `input[p..]`. */
  lemma WordAt(input: string, p: nat, q: nat)
    requires p < q <= |input|
    requires forall k :: p <= k < q ==> !IsSpace(input[k])
    requires q < |input| ==> IsSpace(input[q])
    ensures Words(input[p..]) == [input[p..q]] + Words(input[q..])
  {
    var s := input[p..];
    forall k | 0 <= k < q - p
      ensures !IsSpace(s[k])
    {
      assert s[k] == input[p + k];
    }
    WordsAtWord(s, q - p);
    assert s[..q - p] == input[p..q];
    assert s[q - p..] == input[q..];
  }

  lemma SkipSpaceAt(input: string, p: nat)
    requires p < |input| && IsSpace(input[p])
    ensures Words(input[p..]) == Words(input[p + 1..])
  {
    WordsSkipSpace(input[p..]);
    assert input[p..][1..] == input[p + 1..];
  }

  lemma WordsSkipSpace(s: string)
    requires |s| > 0 && IsSpace(s[0])
    ensures Words(s) == Words(s[1..])
  {
  }

  /** A whitespace-free prefix of length `n` followed by whitespace or the
      end of the input is the first word. */
  lemma WordsAtWord(s: string, n: nat)
    requires 0 < n <= |s|
    requires forall k :: 0 <= k < n ==> !IsSpace(s[k])
    requires n < |s| ==> IsSpace(s[n])
    ensures Words(s) == [s[..n]] + Words(s[n..])
  {
    WordLenIs(s, n);
  }

  lemma WordLenIs(s: string, n: nat)
    requires n <= |s|
    requires forall k :: 0 <= k < n ==> !IsSpace(s[k])
    requires n < |s| ==> IsSpace(s[n])
    ensures WordLen(s) == n
  {
  }

  /** The body of the word loop: upper-case `word[0]`, then lower-case
      `word[1..]` one character at a time. */
  method CapitalizeWord(word: string) returns (w: string)
    requires |word| > 0
    ensures w == Capitalize(word)
  {
    w := word;
    w := w[0 := Upper(w[0])];
    var i := 1;
    while i < |w|
      invariant 1 <= i <= |w|
      invariant |w| == |word| && w[0] == Upper(word[0])
      invariant forall k :: 1 <= k < i ==> w[k] == Lower(word[k])
      invariant forall k :: i <= k < |w| ==> w[k] == word[k]
    {
      w := w[i := Lower(w[i])];
      i := i + 1;
    }
    assert w == [Upper(word[0])] + LowerAll(word[1..]);
  }

  /** `GenerateVerifierFileName`: extracts words until the stream fails,
      capitalises each and appends it to the result. */
  method GenerateVerifierFileName(input: string) returns (result: string)
    ensures result == Stem(input)
  {
    result := "";
    var ok, word, pos := ExtractWord(input, 0);
    assert input[0..] == input;
    StemOfExtracted(input, 0, ok, word, pos);
    while ok
      invariant pos <= |input|
      invariant ok ==> |word| > 0
      invariant Stem(input) == result + (if ok then Capitalize(word) + Stem(input[pos..]) else "")
      decreases |input| - pos, ok
    {
      ConcatAssoc(result, Capitalize(word), Stem(input[pos..]));
      if word != "" {
        var w := CapitalizeWord(word);
        result := result + w;
      }
      var pos0 := pos;
      ok, word, pos := ExtractWord(input, pos);
      StemOfExtracted(input, pos0, ok, word, pos);
    }
  }

  lemma StemOfExtracted(input: string, start: nat, ok: bool, word: string, next: nat)
    requires start <= next <= |input|
    requires ok <==> Words(input[start..]) != []
    requires ok ==> start < next && Words(input[start..]) == [word] + Words(input[next..])
    ensures Stem(input[start..]) == if ok then Capitalize(word) + Stem(input[next..]) else ""
  {
    if ok {
      assert ([word] + Words(input[next..]))[1..] == Words(input[next..]);
    }
  }

  function Flatten(ws: seq<string>): string {
    if |ws| == 0 then "" else ws[0] + Flatten(ws[1..])
  }

  /** Unfolds `Stem` one step along the input, the way the stream reads it. */
  lemma StemUnfold(s: string)
    requires |s| > 0
    ensures IsSpace(s[0]) ==> Stem(s) == Stem(s[1..])
    ensures !IsSpace(s[0]) ==> Stem(s) == Capitalize(s[..WordLen(s)]) + Stem(s[WordLen(s)..])
  {
    if !IsSpace(s[0]) {
      var n := WordLen(s);
      assert ([s[..n]] + Words(s[n..]))[1..] == Words(s[n..]);
    }
  }

  lemma {:induction false} NonSpaceAppend(a: string, b: string)
    ensures NonSpace(a + b) == NonSpace(a) + NonSpace(b)
  {
    if |a| > 0 {
      assert (a + b)[1..] == a[1..] + b;
      NonSpaceAppend(a[1..], b);
    } else {
      assert a + b == b;
    }
  }

  lemma {:induction false} NonSpaceOfWord(w: string)
    requires forall k :: 0 <= k < |w| ==> !IsSpace(w[k])
    ensures NonSpace(w) == w
  {
    if |w| > 0 {
      NonSpaceOfWord(w[1..]);
    }
  }

  /** Every extracted word is non-empty and free of whitespace, and the
      words together are exactly the input's non-whitespace characters. */
  lemma WordsPartitionInput(s: string)
    ensures forall i :: 0 <= i < |Words(s)| ==> |Words(s)[i]| > 0
    ensures forall i, k :: 0 <= i < |Words(s)| && 0 <= k < |Words(s)[i]| ==> !IsSpace(Words(s)[i][k])
    ensures Flatten(Words(s)) == NonSpace(s)
  {
    WordsAreWords(s);
    WordsFlattenToNonSpace(s);
  }

  lemma {:induction false} WordsAreWords(s: string)
    ensures forall i :: 0 <= i < |Words(s)| ==> |Words(s)[i]| > 0
    ensures forall i, k :: 0 <= i < |Words(s)| && 0 <= k < |Words(s)[i]| ==> !IsSpace(Words(s)[i][k])
    decreases |s|
  {
    if |s| > 0 {
      if IsSpace(s[0]) {
        WordsAreWords(s[1..]);
      } else {
        var n := WordLen(s);
        WordsAreWords(s[n..]);
        assert Words(s) == [s[..n]] + Words(s[n..]);
      }
    }
  }

  lemma {:induction false} WordsFlattenToNonSpace(s: string)
    ensures Flatten(Words(s)) == NonSpace(s)
    decreases |s|
  {
    if |s| > 0 {
      if IsSpace(s[0]) {
        WordsFlattenToNonSpace(s[1..]);
      } else {
        var n := WordLen(s);
        var rest := Words(s[n..]);
        WordsFlattenToNonSpace(s[n..]);
        assert Words(s) == [s[..n]] + rest;
        assert s == s[..n] + s[n..];
        NonSpaceAppend(s[..n], s[n..]);
        NonSpaceOfWord(s[..n]);
        assert ([s[..n]] + rest)[1..] == rest;
      }
    }
  }

  lemma LowerAllAppend(a: string, b: string)
    ensures LowerAll(a + b) == LowerAll(a) + LowerAll(b)
  {
  }

  lemma {:induction false} CapitalizeAllMatchesFlatten(ws: seq<string>)
    ensures |CapitalizeAll(ws)| == |Flatten(ws)|
    ensures LowerAll(CapitalizeAll(ws)) == LowerAll(Flatten(ws))
  {
    if |ws| > 0 {
      CapitalizeAllMatchesFlatten(ws[1..]);
      CapitalizeSpec(ws[0]);
      LowerAllAppend(Capitalize(ws[0]), CapitalizeAll(ws[1..]));
      LowerAllAppend(ws[0], Flatten(ws[1..]));
    }
  }

  /** Capitalising words without whitespace introduces none. */
  lemma {:induction false} CapitalizeAllHasNoSpace(ws: seq<string>)
    requires forall i, k :: 0 <= i < |ws| && 0 <= k < |ws[i]| ==> !IsSpace(ws[i][k])
    ensures forall k :: 0 <= k < |CapitalizeAll(ws)| ==> !IsSpace(CapitalizeAll(ws)[k])
  {
    if |ws| > 0 {
      var rest := ws[1..];
      forall i, k | 0 <= i < |rest| && 0 <= k < |rest[i]|
        ensures !IsSpace(rest[i][k])
      {
        assert rest[i] == ws[i + 1];
      }
      CapitalizeAllHasNoSpace(rest);
      var c := Capitalize(ws[0]);
      CapitalizeSpec(ws[0]);
      assert CapitalizeAll(ws) == c + CapitalizeAll(rest);
      forall k | 0 <= k < |CapitalizeAll(ws)|
        ensures !IsSpace(CapitalizeAll(ws)[k])
      {
        if k < |c| {
          assert !IsSpace(ws[0][k]);
        } else {
          assert CapitalizeAll(ws)[k] == CapitalizeAll(rest)[k - |c|];
        }
      }
    }
  }

  /** The stem contains no whitespace. */
  lemma StemHasNoSpace(s: string)
    ensures forall k :: 0 <= k < |Stem(s)| ==> !IsSpace(Stem(s)[k])
  {
    WordsPartitionInput(s);
    CapitalizeAllHasNoSpace(Words(s));
  }

  /** Up to letter case, the stem is the input with its whitespace removed:
      as long as the input's non-whitespace characters, and equal to them
      once both are lower-cased. */
  lemma StemIsInputWithoutSpace(s: string)
    ensures |Stem(s)| == |NonSpace(s)|
    ensures LowerAll(Stem(s)) == LowerAll(NonSpace(s))
  {
    WordsPartitionInput(s);
    CapitalizeAllMatchesFlatten(Words(s));
  }

  /** An empty or all-whitespace name gives the empty stem. */
  lemma {:induction false} StemOfBlank(s: string)
    requires forall k :: 0 <= k < |s| ==> IsSpace(s[k])
    ensures Stem(s) == ""
  {
    if |s| > 0 {
      StemUnfold(s);
      StemOfBlank(s[1..]);
    }
  }

  lemma {:induction false} CapitalizeAllAppend(xs: seq<string>, ys: seq<string>)
    ensures CapitalizeAll(xs + ys) == CapitalizeAll(xs) + CapitalizeAll(ys)
  {
    if |xs| > 0 {
      CapitalizeAllAppend(xs[1..], ys);
      CapitalizeAllAppendStep(xs, ys);
    } else {
      assert xs + ys == ys;
    }
  }

  lemma CapitalizeAllAppendStep(xs: seq<string>, ys: seq<string>)
    requires |xs| > 0
    requires CapitalizeAll(xs[1..] + ys) == CapitalizeAll(xs[1..]) + CapitalizeAll(ys)
    ensures CapitalizeAll(xs + ys) == CapitalizeAll(xs) + CapitalizeAll(ys)
  {
    CapitalizeAllConsAppend(xs, ys);
    ConcatAssoc(Capitalize(xs[0]), CapitalizeAll(xs[1..]), CapitalizeAll(ys));
  }

  lemma CapitalizeAllConsAppend(xs: seq<string>, ys: seq<string>)
    requires |xs| > 0
    ensures CapitalizeAll(xs + ys) == Capitalize(xs[0]) + CapitalizeAll(xs[1..] + ys)
  {
    assert (xs + ys)[0] == xs[0];
    assert (xs + ys)[1..] == xs[1..] + ys;
  }

  /** A whitespace character separates words: what precedes it and what
      follows it are tokenised independently. */
  lemma {:induction false} WordsSplitAtSpace(a: string, c: char, b: string)
    requires IsSpace(c)
    ensures Words(a + [c] + b) == Words(a) + Words(b)
    decreases |a|
  {
    var x := a + [c] + b;
    if |a| == 0 {
      assert x[1..] == b;
    } else if IsSpace(a[0]) {
      assert x[1..] == a[1..] + [c] + b;
      WordsSplitAtSpace(a[1..], c, b);
    } else {
      WordsSplitAtSpace(a[WordLen(a)..], c, b);
      WordsSplitAfterWord(a, c, b);
    }
  }

  /** The step of `WordsSplitAtSpace` past a leading word of `a`. */
  lemma WordsSplitAfterWord(a: string, c: char, b: string)
    requires IsSpace(c) && |a| > 0 && !IsSpace(a[0])
    requires Words(a[WordLen(a)..] + [c] + b) == Words(a[WordLen(a)..]) + Words(b)
    ensures Words(a + [c] + b) == Words(a) + Words(b)
  {
    var n := WordLen(a);
    WordsOfWordThenSpace(a, c, b);
    WordsOfLeadingWord(a);
    ConcatAssoc([a[..n]], Words(a[n..]), Words(b));
  }

  /** The first word of `a` stays the first word when whitespace and `b`
      follow. */
  lemma WordsOfWordThenSpace(a: string, c: char, b: string)
    requires IsSpace(c) && |a| > 0 && !IsSpace(a[0])
    ensures Words(a + [c] + b) == [a[..WordLen(a)]] + Words(a[WordLen(a)..] + [c] + b)
  {
    var n := WordLen(a);
    var s := a + [c] + b;
    WordLenExtends(a, [c] + b);
    assert s == a + ([c] + b);
    assert WordLen(s) == n;
    assert s[..n] == a[..n];
    assert s[n..] == a[n..] + [c] + b;
    WordsOfLeadingWord(s);
  }

  lemma ConcatAssoc<T>(x: seq<T>, y: seq<T>, z: seq<T>)
    ensures x + y + z == x + (y + z)
  {
  }

  /** A word ended by whitespace or by the end of `a` stays the same word
      when `t`, starting with whitespace, follows. */
  lemma WordLenExtends(a: string, t: string)
    requires |t| > 0 && IsSpace(t[0])
    ensures WordLen(a + t) == WordLen(a)
  {
    var n := WordLen(a);
    forall k | 0 <= k < n ensures !IsSpace((a + t)[k]) {
      assert (a + t)[k] == a[k];
    }
    WordLenIs(a + t, n);
  }

  lemma WordsOfLeadingWord(s: string)
    requires |s| > 0 && !IsSpace(s[0])
    ensures Words(s) == [s[..WordLen(s)]] + Words(s[WordLen(s)..])
  {
  }

  /** The stem of two whitespace-separated parts is the concatenation of
      their stems. */
  lemma StemSplitsAtSpace(a: string, c: char, b: string)
    requires IsSpace(c)
    ensures Stem(a + [c] + b) == Stem(a) + Stem(b)
  {
    WordsSplitAtSpace(a, c, b);
    CapitalizeAllAppend(Words(a), Words(b));
  }

  /** How much whitespace separates two parts does not matter. */
  lemma StemIgnoresSpacing(a: string, c: char, d: char, b: string)
    requires IsSpace(c) && IsSpace(d)
    ensures Stem(a + [c] + b) == Stem(a + [c, d] + b)
  {
    StemSplitsAtSpace(a, c, b);
    StemDropsSpaceRun(a, [c, d], b);
  }

  /** Any non-empty run of whitespace separates two parts as one whitespace
      character does; with an empty part, a leading or trailing run adds
      nothing to the stem. */
  lemma StemDropsSpaceRun(a: string, w: string, b: string)
    requires |w| > 0 && forall k :: 0 <= k < |w| ==> IsSpace(w[k])
    ensures Stem(a + w + b) == Stem(a) + Stem(b)
  {
    assert a + w + b == a + [w[0]] + (w[1..] + b);
    StemSplitsAtSpace(a, w[0], w[1..] + b);
    StemSkipsLeadingSpace(w[1..], b);
  }

  /** Leading whitespace does not change the stem. */
  lemma {:induction false} StemSkipsLeadingSpace(w: string, b: string)
    requires forall k :: 0 <= k < |w| ==> IsSpace(w[k])
    ensures Stem(w + b) == Stem(b)
    decreases |w|
  {
    if |w| == 0 {
      assert w + b == b;
    } else {
      StemSkipsLeadingSpace(w[1..], b);
      StemUnfold(w + b);
      assert (w + b)[1..] == w[1..] + b;
    }
  }

  lemma SameCaseFolding(c: char, d: char)
    requires Lower(c) == Lower(d)
    ensures IsSpace(c) == IsSpace(d) && Upper(c) == Upper(d)
  {
  }

  lemma CapitalizeIgnoresCase(w: string, v: string)
    requires |w| == |v|
    requires forall k :: 0 <= k < |w| ==> Lower(w[k]) == Lower(v[k])
    ensures Capitalize(w) == Capitalize(v)
  {
    if |w| > 0 {
      SameCaseFolding(w[0], v[0]);
      assert LowerAll(w[1..]) == LowerAll(v[1..]);
    }
  }

  /** Letter case in the input does not matter. */
  lemma StemIgnoresCase(s: string, t: string)
    requires LowerAll(s) == LowerAll(t)
    ensures Stem(s) == Stem(t)
  {
    assert |s| == |t|;
    forall k | 0 <= k < |s| ensures Lower(s[k]) == Lower(t[k]) {
      assert LowerAll(s)[k] == LowerAll(t)[k];
    }
    StemFoldsCase(s, t);
  }

  lemma {:induction false} StemFoldsCase(s: string, t: string)
    requires |s| == |t|
    requires forall k :: 0 <= k < |s| ==> Lower(s[k]) == Lower(t[k])
    ensures Stem(s) == Stem(t)
    decreases |s|
  {
    if |s| > 0 {
      StemUnfold(s);
      StemUnfold(t);
      SameCaseFolding(s[0], t[0]);
      if IsSpace(s[0]) {
        StemFoldsCase(s[1..], t[1..]);
      } else {
        StemFoldsCase(s[WordLen(s)..], t[WordLen(s)..]);
        StemFoldsCaseAfterWord(s, t);
      }
    }
  }

  /** The step of `StemFoldsCase` past a leading word. */
  lemma StemFoldsCaseAfterWord(s: string, t: string)
    requires |s| == |t| && |s| > 0 && !IsSpace(s[0])
    requires forall k :: 0 <= k < |s| ==> Lower(s[k]) == Lower(t[k])
    requires Stem(s[WordLen(s)..]) == Stem(t[WordLen(s)..])
    ensures Stem(s) == Stem(t)
  {
    var n := WordLen(s);
    StemUnfold(s);
    StemUnfold(t);
    SameCaseFolding(s[0], t[0]);
    forall k | 0 <= k < n ensures !IsSpace(t[k]) {
      SameCaseFolding(s[k], t[k]);
    }
    if n < |s| {
      SameCaseFolding(s[n], t[n]);
    }
    WordLenIs(t, n);
    CapitalizeIgnoresCase(s[..n], t[..n]);
  }

  /** Hence different names can share a stem: the mapping is not
      injective. */
  lemma StemNotInjective()
    ensures "b" != " B" && Stem("b") == Stem(" B")
  {
    StemUnfold(" B");
    StemOfWord("b");
    StemOfWord("B");
  }

  lemma StemOfWord(w: string)
    requires |w| > 0
    requires forall k :: 0 <= k < |w| ==> !IsSpace(w[k])
    ensures Stem(w) == Capitalize(w)
  {
    WordsAtWord(w, |w|);
    assert w[..|w|] == w;
    assert Words(w[|w|..]) == [];
    assert Words(w) == [w];
    assert [w][1..] == [];
    assert CapitalizeAll([]) == "";
    assert CapitalizeAll([w]) == Capitalize(w) + CapitalizeAll([]);
  }
}
