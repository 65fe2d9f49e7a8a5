/**
 * The Python checker of the first lab's result files: reading a result
 * file (given as its list of lines, each with its line break, as
 * `readline` returns them), re-computing a tour's node costs and path
 * length, and rotating a tour to start at its smallest node. The distance
 * between two nodes is the instance's integer distance, standing for the
 * rounded Euclidean distance of their coordinates.
 */
module ResultFiles {
  import opened Tours
  import opened Costs
  import BaseSolver

  // ---------------------------------------------------------------------------
  // Text

  /** The whitespace `str.split()` and `int()` skip. */
  predicate IsSpace(c: char)
  {
    c == ' ' || c == '\t' || c == '\n' || c == '\r'
  }

  /** `s.split(sep)[-1]`: the text after the last `sep`, or all of `s` when there is none. */
  function LastField(s: string, sep: char): (r: string)
    ensures sep !in r && |r| <= |s| && r == s[|s| - |r|..]
    ensures sep !in s ==> r == s
  {
    var d := BaseSolver.FindLastOf(s, {sep});
    assert forall k :: d < k < |s| ==> s[k] != sep;
    if d == BaseSolver.NotFound then s else s[d + 1..]
  }

  /** The last field of a text ending in `sep` and a separator-free value is that value. */
  lemma LastFieldOf(p: string, sep: char, v: string)
    requires sep !in v
    ensures LastField(p + [sep] + v, sep) == v
  {
    BaseSolver.FindLastOfSkips(p + [sep], v, {sep});
    assert p + [sep] + v == (p + [sep]) + v;
  }

  /** `s.rstrip(chars)`: drop trailing characters that belong to `chars`. */
  function RStrip(s: string, chars: set<char>): (r: string)
    ensures |r| <= |s| && r == s[..|r|]
    ensures |r| > 0 ==> r[|r| - 1] !in chars
    ensures forall k :: |r| <= k < |s| ==> s[k] in chars
    decreases |s|
  {
    if |s| > 0 && s[|s| - 1] in chars then RStrip(s[..|s| - 1], chars) else s
  }

  // ---------------------------------------------------------------------------
  // Experiment names

  const ResultSuffix: string := "_result.txt"

  /** The characters `rstrip('_result.txt')` treats as strippable. */
  const ResultSuffixChars: set<char> := {'_', 'r', 'e', 's', 'u', 'l', 't', '.', 'x'}

  /** `filename.split('/')[-1].rstrip('_result.txt')`, as written: strips any trailing run of those characters. */
  function ExperimentNameAsWritten(path: string): (r: string)
    ensures |r| <= |LastField(path, '/')| && r == LastField(path, '/')[..|r|]
    ensures |r| > 0 ==> r[|r| - 1] !in ResultSuffixChars
  {
    RStrip(LastField(path, '/'), ResultSuffixChars)
  }

  /**
   * As written, the name of a result file in any directory keeps only the
   * part of the experiment's name left after stripping its own trailing
   * run of the suffix's characters.
   */
  lemma AsWrittenOfFile(dir: string, name: string)
    requires '/' !in name
    ensures ExperimentNameAsWritten(dir + "/" + name + ResultSuffix) == RStrip(name, ResultSuffixChars)
  {
    FileOfPath(dir, name);
    SuffixStrippable();
    RStripSuffix(name, ResultSuffix, ResultSuffixChars);
  }

  /** The greedy-cycle experiment's results are filed under "GreedyCyc" as written. */
  lemma GreedyCycleNameMangled(dir: string)
    ensures ExperimentNameAsWritten(dir + "/" + "GreedyCycle" + ResultSuffix) == "GreedyCyc"
  {
    assert '/' !in "GreedyCycle";
    AsWrittenOfFile(dir, "GreedyCycle");
    StripGreedyCycle();
  }

  /** Its own trailing "le" is stripped along with the suffix. */
  lemma StripGreedyCycle()
    ensures RStrip("GreedyCycle", ResultSuffixChars) == "GreedyCyc"
  {
    var name := "GreedyCycle";
    assert name[..10] == "GreedyCycl" && name[..10][..9] == "GreedyCyc";
  }

  /** A result file's path ends in the experiment's name and the suffix, after the last '/'. */
  lemma FileOfPath(dir: string, name: string)
    requires '/' !in name
    ensures LastField(dir + "/" + name + ResultSuffix, '/') == name + ResultSuffix
  {
    assert '/' !in ResultSuffix;
    assert dir + "/" + name + ResultSuffix == dir + ['/'] + (name + ResultSuffix);
    LastFieldOf(dir, '/', name + ResultSuffix);
  }

  /** Every character of the suffix is among the characters stripped. */
  lemma SuffixStrippable()
    ensures forall k :: 0 <= k < |ResultSuffix| ==> ResultSuffix[k] in ResultSuffixChars
  {
  }

  /** A tail made only of strippable characters is stripped entirely. */
  lemma RStripSuffix(a: string, b: string, chars: set<char>)
    requires forall k :: 0 <= k < |b| ==> b[k] in chars
    ensures RStrip(a + b, chars) == RStrip(a, chars)
  {
    RStripDrops(a + b, |a|, chars);
    assert (a + b)[..|a|] == a;
  }

  /** Trailing characters from the set, from position `i` on, are all stripped. */
  lemma {:induction false} RStripDrops(s: string, i: int, chars: set<char>)
    requires 0 <= i <= |s| && forall k :: i <= k < |s| ==> s[k] in chars
    ensures RStrip(s, chars) == RStrip(s[..i], chars)
    decreases |s|
  {
    if i < |s| {
      assert s[..|s| - 1][..i] == s[..i];
      RStripDrops(s[..|s| - 1], i, chars);
    } else {
      assert s[..i] == s;
    }
  }

  /** `s` ends with `suffix`. */
  predicate EndsWith(s: string, suffix: string)
  {
    |s| >= |suffix| && s[|s| - |suffix|..] == suffix
  }

  /** The intended name: the file name with the literal suffix "_result.txt" removed when present. */
  function ExperimentName(path: string): (r: string)
    ensures |r| <= |LastField(path, '/')| && r == LastField(path, '/')[..|r|]
    ensures EndsWith(LastField(path, '/'), ResultSuffix) ==> r + ResultSuffix == LastField(path, '/')
    ensures !EndsWith(LastField(path, '/'), ResultSuffix) ==> r == LastField(path, '/')
  {
    var f := LastField(path, '/');
    if EndsWith(f, ResultSuffix) then
      var n := |f| - |ResultSuffix|;
      assert f == f[..n] + f[n..];
      f[..n]
    else f
  }

  /** Any experiment's result file, in any directory, gives back the experiment's own name. */
  lemma ExperimentNameOfFile(dir: string, name: string)
    requires '/' !in name
    ensures ExperimentName(dir + "/" + name + ResultSuffix) == name
  {
    FileOfPath(dir, name);
    var f := name + ResultSuffix;
    assert f[|f| - |ResultSuffix|..] == ResultSuffix;
    assert f[..|f| - |ResultSuffix|] == name;
  }

  /**
   * The name as written and the intended name coincide exactly when the
   * experiment's name is empty or does not end in one of the suffix's
   * characters (as `..._TSPA` and `..._TSPB` do not).
   */
  lemma NamesAgree(dir: string, name: string)
    requires '/' !in name
    ensures ExperimentNameAsWritten(dir + "/" + name + ResultSuffix) == ExperimentName(dir + "/" + name + ResultSuffix)
            <==> |name| == 0 || name[|name| - 1] !in ResultSuffixChars
  {
    AsWrittenOfFile(dir, name);
    ExperimentNameOfFile(dir, name);
    if |name| > 0 && name[|name| - 1] in ResultSuffixChars {
      assert |RStrip(name, ResultSuffixChars)| < |name|;
    }
  }

  // ---------------------------------------------------------------------------
  // Integers

  predicate IsDigit(c: char)
  {
    '0' <= c <= '9'
  }

  function DigitChar(d: int): (c: char)
    requires 0 <= d < 10
    ensures IsDigit(c)
  {
    ('0' as int + d) as char
  }

  /** Decimal digits of a natural number, without leading zeros (as `%d` prints it). */
  function DigitsOf(n: nat): (r: string)
    ensures |r| >= 1 && forall k :: 0 <= k < |r| ==> IsDigit(r[k])
    decreases n
  {
    if n < 10 then [DigitChar(n)] else DigitsOf(n / 10) + [DigitChar(n % 10)]
  }

  /** An integer as `%d` prints it: a minus sign for negatives, then the digits. */
  function Show(x: int): (r: string)
    ensures |r| >= 1 && !IsSpace(r[0]) && !IsSpace(r[|r| - 1])
    ensures forall k :: 0 <= k < |r| ==> !IsSpace(r[k])
    ensures ':' !in r
  {
    if x < 0 then "-" + DigitsOf(-x) else DigitsOf(x)
  }

  /** The value of a run of decimal digits. */
  function DigitsValue(s: string): nat
    requires forall k :: 0 <= k < |s| ==> IsDigit(s[k])
    decreases |s|
  {
    if |s| == 0 then 0
    else
      assert IsDigit(s[|s| - 1]);
      DigitsValue(s[..|s| - 1]) * 10 + (s[|s| - 1] as int - '0' as int)
  }

  /** Reading the digits back gives the number. */
  lemma {:induction false} DigitsRoundTrip(n: nat)
    ensures DigitsValue(DigitsOf(n)) == n
    decreases n
  {
    if n >= 10 {
      DigitsRoundTrip(n / 10);
      var s := DigitsOf(n);
      assert s[..|s| - 1] == DigitsOf(n / 10);
    }
  }

  /** Whitespace removed from both ends. */
  function Strip(s: string): (r: string)
    ensures |r| <= |s|
    ensures |r| > 0 ==> !IsSpace(r[0]) && !IsSpace(r[|r| - 1])
    decreases |s|
  {
    if |s| > 0 && IsSpace(s[0]) then Strip(s[1..])
    else if |s| > 0 && IsSpace(s[|s| - 1]) then Strip(s[..|s| - 1])
    else s
  }

  /** A text padded only with whitespace strips back to itself. */
  lemma StripPadded(pre: string, w: string, post: string)
    requires |w| >= 1 && !IsSpace(w[0]) && !IsSpace(w[|w| - 1])
    requires forall k :: 0 <= k < |pre| ==> IsSpace(pre[k])
    requires forall k :: 0 <= k < |post| ==> IsSpace(post[k])
    ensures Strip(pre + w + post) == w
  {
    assert pre + w + post == pre + (w + post);
    StripLeading(pre, w + post);
    StripTrailing(w, post);
  }

  /** Leading whitespace is dropped up to the first other character. */
  lemma {:induction false} StripLeading(pre: string, x: string)
    requires |x| >= 1 && !IsSpace(x[0])
    requires forall k :: 0 <= k < |pre| ==> IsSpace(pre[k])
    ensures Strip(pre + x) == Strip(x)
    decreases |pre|
  {
    if |pre| > 0 {
      var s := pre + x;
      assert s[0] == pre[0] && s[1..] == pre[1..] + x;
      StripLeading(pre[1..], x);
    } else {
      assert pre + x == x;
    }
  }

  /** Trailing whitespace after a text that starts and ends with other characters is dropped. */
  lemma {:induction false} StripTrailing(w: string, post: string)
    requires |w| >= 1 && !IsSpace(w[0]) && !IsSpace(w[|w| - 1])
    requires forall k :: 0 <= k < |post| ==> IsSpace(post[k])
    ensures Strip(w + post) == w
    decreases |post|
  {
    var s := w + post;
    if |post| > 0 {
      assert s[0] == w[0] && s[|s| - 1] == post[|post| - 1];
      assert s[..|s| - 1] == w + post[..|post| - 1];
      StripTrailing(w, post[..|post| - 1]);
    } else {
      assert s == w;
    }
  }

  /** Every character is a decimal digit. */
  predicate AllDigits(s: string)
  {
    forall k :: 0 <= k < |s| ==> IsDigit(s[k])
  }

  /** A stripped number: an optional sign, then at least one digit. */
  function ParseSigned(t: string): Option<int>
  {
    if |t| == 0 then None
    else
      var body := if t[0] == '-' || t[0] == '+' then t[1..] else t;
      if |body| == 0 || !AllDigits(body) then None
      else Some(if t[0] == '-' then -(DigitsValue(body) as int) else DigitsValue(body) as int)
  }

  /** Python's `int(text)`: optional surrounding whitespace, an optional sign, then decimal digits; `None` for anything else. */
  function ParseInt(text: string): Option<int>
  {
    ParseSigned(Strip(text))
  }

  /** The sign and digits `%d` writes read back as the number. */
  lemma ParseSignedShow(x: int)
    ensures ParseSigned(Show(x)) == Some(x)
  {
    var t := Show(x);
    if x < 0 {
      DigitsRoundTrip(-x);
      assert t[0] == '-' && t[1..] == DigitsOf(-x);
    } else {
      DigitsRoundTrip(x);
      assert t == DigitsOf(x) && IsDigit(t[0]);
    }
  }

  /** `int` reads back what `%d` wrote, whitespace around it included. */
  lemma ParseShow(pre: string, x: int, post: string)
    requires forall k :: 0 <= k < |pre| ==> IsSpace(pre[k])
    requires forall k :: 0 <= k < |post| ==> IsSpace(post[k])
    ensures ParseInt(pre + Show(x) + post) == Some(x)
  {
    StripPadded(pre, Show(x), post);
    ParseSignedShow(x);
  }

  /** `str.split()`: the maximal runs of non-whitespace, in order. */
  function Tokens(s: string): seq<string>
    decreases |s|
  {
    if |s| == 0 then []
    else if IsSpace(s[0]) then Tokens(s[1..])
    else
      var w := Word(s);
      [w] + Tokens(s[|w|..])
  }

  /** The run of non-whitespace at the start of `s`. */
  function Word(s: string): (r: string)
    ensures |r| <= |s| && r == s[..|r|]
    ensures |s| > 0 && !IsSpace(s[0]) ==> |r| > 0
    decreases |s|
  {
    if |s| == 0 || IsSpace(s[0]) then [] else [s[0]] + Word(s[1..])
  }

  /** A word followed by whitespace or nothing is read whole. */
  lemma {:induction false} WordOf(w: string, rest: string)
    requires forall k :: 0 <= k < |w| ==> !IsSpace(w[k])
    requires |rest| == 0 || IsSpace(rest[0])
    ensures Word(w + rest) == w
    decreases |w|
  {
    if |w| > 0 {
      assert (w + rest)[1..] == w[1..] + rest;
      WordOf(w[1..], rest);
    } else {
      assert w + rest == rest;
    }
  }

  /** Each value's digits after a space, as a tour line lists the nodes. */
  function Join(xs: seq<int>): (r: string)
    ensures |xs| > 0 ==> |r| > 0 && IsSpace(r[0])
    ensures ':' !in r
    decreases |xs|
  {
    if |xs| == 0 then "" else " " + Show(xs[0]) + Join(xs[1..])
  }

  /** `int(x)` for every token; `None` when one of them is not an integer. */
  function ParseAll(tokens: seq<string>): (r: Option<seq<int>>)
    ensures r.Some? ==> |r.value| == |tokens|
    decreases |tokens|
  {
    if |tokens| == 0 then Some([])
    else match (ParseInt(tokens[0]), ParseAll(tokens[1..]))
      case (Some(x), Some(rest)) => Some([x] + rest)
      case _ => None
  }

  /** A word followed by whitespace or nothing is the first token. */
  lemma TokensWord(w: string, rest: string)
    requires |w| >= 1 && forall k :: 0 <= k < |w| ==> !IsSpace(w[k])
    requires |rest| == 0 || IsSpace(rest[0])
    ensures Tokens(w + rest) == [w] + Tokens(rest)
  {
    WordOf(w, rest);
    assert (w + rest)[0] == w[0];
    assert (w + rest)[|w|..] == rest;
  }

  /** One value of a joined list reads back, ahead of the rest. */
  lemma ParseAllCons(x: int, rest: seq<string>)
    ensures ParseAll([Show(x)] + rest) == (if ParseAll(rest).Some? then Some([x] + ParseAll(rest).value) else None)
  {
    var tokens := [Show(x)] + rest;
    assert Strip(Show(x)) == Show(x);
    ParseSignedShow(x);
    assert tokens[0] == Show(x) && tokens[1..] == rest;
  }

  /** Splitting a joined list and reading each token gives the list back, trailing whitespace or not. */
  lemma {:induction false} TokensOfJoin(xs: seq<int>, post: string)
    requires forall k :: 0 <= k < |post| ==> IsSpace(post[k])
    ensures ParseAll(Tokens(Join(xs) + post)) == Some(xs)
    decreases |xs|
  {
    if |xs| > 0 {
      TokensOfJoin(xs[1..], post);
      JoinSplit(xs, post);
      TokensCons(Join(xs) + post, xs[0], Join(xs[1..]) + post, xs[1..]);
      ConsSplit(xs);
    } else {
      assert Join(xs) + post == post;
      TokensOfSpaces(post);
    }
  }

  /** Whitespace alone holds no token. */
  lemma {:induction false} TokensOfSpaces(s: string)
    requires forall k :: 0 <= k < |s| ==> IsSpace(s[k])
    ensures Tokens(s) == []
    decreases |s|
  {
    if |s| > 0 {
      TokensOfSpaces(s[1..]);
    }
  }

  /** A joined list with whitespace after it: a space, the first value, then the rest, which is empty or starts with whitespace. */
  lemma JoinSplit(xs: seq<int>, post: string)
    requires |xs| > 0 && forall k :: 0 <= k < |post| ==> IsSpace(post[k])
    ensures var s, rest := Join(xs) + post, Join(xs[1..]) + post;
            && |s| > 0 && s[0] == ' ' && s[1..] == Show(xs[0]) + rest
            && (|rest| == 0 || IsSpace(rest[0]))
  {
    assert Join(xs) == " " + Show(xs[0]) + Join(xs[1..]);
    SpaceLed(Show(xs[0]), Join(xs[1..]), post);
    HeadOfConcat(Join(xs[1..]), post);
  }

  /** A space, `w` and `j`, followed by `post`: the space, then `w` followed by `j` and `post`. */
  lemma SpaceLed(w: string, j: string, post: string)
    ensures var s := " " + w + j + post;
            |s| > 0 && s[0] == ' ' && s[1..] == w + (j + post)
  {
    var s := " " + w + j + post;
    assert s == " " + (w + (j + post));
  }

  /** The first character of `a + b` is that of `a`, or that of `b` when `a` is empty. */
  lemma HeadOfConcat(a: string, b: string)
    ensures |a| > 0 ==> (a + b)[0] == a[0]
    ensures |a| == 0 ==> a + b == b
  {
    if |a| == 0 {
      assert a + b == b;
    }
  }

  /** A space, a written value and a rest that is empty or space-led: the value reads back ahead of the rest's values. */
  lemma TokensCons(s: string, x: int, rest: string, ys: seq<int>)
    requires |s| > 0 && s[0] == ' ' && s[1..] == Show(x) + rest
    requires |rest| == 0 || IsSpace(rest[0])
    requires ParseAll(Tokens(rest)) == Some(ys)
    ensures ParseAll(Tokens(s)) == Some([x] + ys)
  {
    TokensAfterSpace(s);
    TokensWord(Show(x), rest);
    ParseAllCons(x, Tokens(rest));
  }

  /** Leading whitespace starts no token. */
  lemma TokensAfterSpace(s: string)
    requires |s| > 0 && IsSpace(s[0])
    ensures Tokens(s) == Tokens(s[1..])
  {
  }

  /** A non-empty list is its head followed by its tail. */
  lemma ConsSplit(xs: seq<int>)
    requires |xs| > 0
    ensures [xs[0]] + xs[1..] == xs
  {
  }

  // ---------------------------------------------------------------------------
  // Reading a result file

  /** What `read_algorithm_result` collects. The average is kept as its text: parsing a `float` is not modelled. */
  datatype AlgorithmResult = AlgorithmResult(
    experimentName: string, bestCost: int, worstCost: int, averageCost: string,
    pathLengths: int, nodeCosts: int, bestSolution: seq<int>)

  /** The `k`-th `readline()`: the line, or "" past the end of the file. */
  function Line(lines: seq<string>, k: nat): string
  {
    if k < |lines| then lines[k] else ""
  }

  /**
   * `read_algorithm_result`: best, worst and average from lines 1-3 (each
   * after its last ':'), line 4 skipped, path length and node costs from
   * lines 5-6, and the tour from line 7 after its last ':'. Any integer that
   * does not parse makes the read fail. The experiment name is the one
   * `rstrip('_result.txt')` leaves.
   */
  function ReadAlgorithmResult(path: string, lines: seq<string>): (r: Option<AlgorithmResult>)
    ensures r.Some? ==> r.value.experimentName == ExperimentNameAsWritten(path)
    ensures r.Some? ==> ParseInt(LastField(Line(lines, 4), ':')) == Some(r.value.pathLengths)
    ensures r.Some? ==> ParseInt(LastField(Line(lines, 5), ':')) == Some(r.value.nodeCosts)
  {
    var best := ParseInt(LastField(Line(lines, 0), ':'));
    var worst := ParseInt(LastField(Line(lines, 1), ':'));
    var average := LastField(Line(lines, 2), ':');
    var pathLengths := ParseInt(LastField(Line(lines, 4), ':'));
    var nodeCosts := ParseInt(LastField(Line(lines, 5), ':'));
    var tour := ParseAll(Tokens(LastField(Line(lines, 6), ':')));
    if best.None? || worst.None? || pathLengths.None? || nodeCosts.None? || tour.None? then None
    else Some(AlgorithmResult(ExperimentNameAsWritten(path), best.value, worst.value, average, pathLengths.value, nodeCosts.value, tour.value))
  }

  /** A value line as the C writer produces it: a label, ": ", the value, a line break. */
  function ValueLine(name: string, x: int): string
  {
    name + ": " + Show(x) + "\n"
  }

  /** The value of a labelled line reads back. */
  lemma ValueLineReads(name: string, x: int)
    ensures ParseInt(LastField(ValueLine(name, x), ':')) == Some(x)
  {
    assert ValueLine(name, x) == name + [':'] + (" " + Show(x) + "\n");
    LastFieldOf(name, ':', " " + Show(x) + "\n");
    ParseShow(" ", x, "\n");
  }

  /** Six readable fields on a seven-line file make a result, each field the value read from its line. */
  lemma ReadFields(path: string, l0: string, l1: string, l2: string, l3: string, l4: string, l5: string, l6: string,
                   best: int, worst: int, average: string, pathLengths: int, nodeCosts: int, tour: seq<int>)
    requires ParseInt(LastField(l0, ':')) == Some(best)
    requires ParseInt(LastField(l1, ':')) == Some(worst)
    requires LastField(l2, ':') == average
    requires ParseInt(LastField(l4, ':')) == Some(pathLengths)
    requires ParseInt(LastField(l5, ':')) == Some(nodeCosts)
    requires ParseAll(Tokens(LastField(l6, ':'))) == Some(tour)
    ensures ReadAlgorithmResult(path, [l0, l1, l2, l3, l4, l5, l6]) ==
              Some(AlgorithmResult(ExperimentNameAsWritten(path), best, worst, average, pathLengths, nodeCosts, tour))
  {
    SevenLines(l0, l1, l2, l3, l4, l5, l6);
  }

  /** The lines `readline` returns from a seven-line file, in order. */
  lemma SevenLines(l0: string, l1: string, l2: string, l3: string, l4: string, l5: string, l6: string)
    ensures var lines := [l0, l1, l2, l3, l4, l5, l6];
            && Line(lines, 0) == l0 && Line(lines, 1) == l1 && Line(lines, 2) == l2 && Line(lines, 3) == l3
            && Line(lines, 4) == l4 && Line(lines, 5) == l5 && Line(lines, 6) == l6 && Line(lines, 7) == ""
  {
  }

  /** The average line's text after its label reads back as written. */
  lemma TextLineReads(name: string, text: string)
    requires ':' !in text
    ensures LastField(name + ":" + text, ':') == text
  {
    assert name + ":" + text == name + [':'] + text;
    LastFieldOf(name, ':', text);
  }

  /**
   * The tour line as the C writer prints it: the label and a colon, then a
   * space and each node followed by a space, then the newline (for the tour
   * [1, 2, 3], `Best solution: 1 2 3 \n`).
   */
  function TourLine(name: string, tour: seq<int>): string
  {
    name + ":" + Join(tour) + " \n"
  }

  /** The written tour line reads back as the tour, the trailing space included. */
  lemma TourLineReads(name: string, tour: seq<int>)
    ensures ParseAll(Tokens(LastField(TourLine(name, tour), ':'))) == Some(tour)
  {
    TourLineField(name, tour);
    var post := " \n";
    assert IsSpace(post[0]) && IsSpace(post[1]);
    TokensOfJoin(tour, post);
  }

  /** The text after the tour line's colon is the node list with its trailing space and newline. */
  lemma TourLineField(name: string, tour: seq<int>)
    ensures LastField(TourLine(name, tour), ':') == Join(tour) + " \n"
  {
    assert TourLine(name, tour) == name + [':'] + (Join(tour) + " \n");
    LastFieldOf(name, ':', Join(tour) + " \n");
  }

  /**
   * A file written in the result format reads back as the values written,
   * whatever the labels and the skipped line hold; the name is the one
   * `rstrip` leaves (see `NamesAgree` for when that is the experiment's).
   */
  lemma ReadWrittenResult(path: string, labels: seq<string>, skipped: string, average: string,
                          best: int, worst: int, pathLengths: int, nodeCosts: int, tour: seq<int>)
    requires |labels| == 6 && ':' !in average
    ensures var lines := [ValueLine(labels[0], best), ValueLine(labels[1], worst), labels[2] + ":" + average, skipped,
                          ValueLine(labels[3], pathLengths), ValueLine(labels[4], nodeCosts), TourLine(labels[5], tour)];
            ReadAlgorithmResult(path, lines) ==
              Some(AlgorithmResult(ExperimentNameAsWritten(path), best, worst, average, pathLengths, nodeCosts, tour))
  {
    ValueLineReads(labels[0], best);
    ValueLineReads(labels[1], worst);
    TextLineReads(labels[2], average);
    ValueLineReads(labels[3], pathLengths);
    ValueLineReads(labels[4], nodeCosts);
    TourLineReads(labels[5], tour);
    ReadFields(path, ValueLine(labels[0], best), ValueLine(labels[1], worst), labels[2] + ":" + average, skipped,
               ValueLine(labels[3], pathLengths), ValueLine(labels[4], nodeCosts), TourLine(labels[5], tour),
               best, worst, average, pathLengths, nodeCosts, tour);
  }

  /** A file of fewer than six lines cannot be read: the node-cost line is empty. */
  lemma ShortFileFails(path: string, lines: seq<string>)
    requires |lines| < 6
    ensures ReadAlgorithmResult(path, lines) == None
  {
    assert Line(lines, 5) == "";
    assert Strip("") == "";
  }

  // ---------------------------------------------------------------------------
  // Validation

  /**
   * `validate_result`: node costs over all positions and distances over
   * consecutive positions plus the last-to-first edge, compared with the
   * stored totals. An empty tour or a node outside the instance fails
   * (`None`); otherwise the verdict is whether both totals match.
   */
  method ValidateResult(inst: Instance, solution: seq<int>, pathLengths: int, nodeCosts: int) returns (r: Option<bool>)
    ensures r.None? <==> |solution| == 0 || !InRange(solution, inst.Size())
    ensures r.Some? ==> (r.value <==> PathLength(inst, solution) == pathLengths && NodeCosts(inst, solution) == nodeCosts)
  {
    if |solution| == 0 || !InRange(solution, inst.Size()) {
      return None;
    }
    var costs, lengths := 0, 0;
    var i := 0;
    while i < |solution| - 1
      invariant 0 <= i <= |solution| - 1
      invariant costs == NodeCosts(inst, solution[..i]) && lengths == LinLen(inst, solution[..i + 1])
    {
      assert solution[..i + 1][..i] == solution[..i];
      assert solution[..i + 2][..i + 1] == solution[..i + 1];
      costs := costs + inst.C(solution[i]);
      lengths := lengths + inst.D(solution[i], solution[i + 1]);
      i := i + 1;
    }
    assert solution[..i + 1] == solution;
    assert solution[..i + 1][..i] == solution[..i];
    costs := costs + inst.C(solution[|solution| - 1]);
    lengths := lengths + inst.D(solution[|solution| - 1], solution[0]);
    r := Some(lengths == pathLengths && costs == nodeCosts);
  }

  // ---------------------------------------------------------------------------
  // Rotation

  /** `solution.index(min(solution))`: the first position holding the smallest value. */
  function MinIndex(s: seq<int>): (m: int)
    requires |s| >= 1
    ensures 0 <= m < |s|
    ensures forall k :: 0 <= k < |s| ==> s[m] <= s[k]
    ensures forall k :: 0 <= k < m ==> s[k] > s[m]
    decreases |s|
  {
    if |s| == 1 then 0
    else
      var p := MinIndex(s[..|s| - 1]);
      if s[|s| - 1] < s[p] then |s| - 1 else p
  }

  /**
   * `shift_solution`: the rotation of the tour that starts at the first
   * occurrence of its smallest node; `None` for an empty tour, where `min`
   * fails.
   */
  method ShiftSolution(solution: seq<int>) returns (r: Option<seq<int>>)
    ensures r.None? <==> |solution| == 0
    ensures r.Some? ==> var m := MinIndex(solution); r.value == solution[m..] + solution[..m]
  {
    if |solution| == 0 {
      return None;
    }
    var n := |solution|;
    var m := MinIndex(solution);
    ghost var rotated := solution[m..] + solution[..m];
    var shifted: seq<int> := [];
    var i := 0;
    while i < n
      invariant 0 <= i <= n && shifted == rotated[..i]
    {
      ModOnce(i + m, n);
      assert rotated[i] == solution[(i + m) % n];
      assert rotated[..i + 1] == rotated[..i] + [rotated[i]];
      shifted := shifted + [solution[(i + m) % n]];
      i := i + 1;
    }
    assert rotated[..n] == rotated;
    r := Some(shifted);
  }

  /** The shifted tour has the same length, starts at the smallest node, and costs the same as the tour. */
  lemma ShiftKeepsTour(inst: Instance, solution: seq<int>)
    requires |solution| >= 1
    ensures var m := MinIndex(solution);
            var r := solution[m..] + solution[..m];
            && |r| == |solution| && multiset(r) == multiset(solution)
            && (forall k :: 0 <= k < |r| ==> r[0] <= r[k])
            && TourCost(inst, r) == TourCost(inst, solution)
  {
    var m := MinIndex(solution);
    var r := solution[m..] + solution[..m];
    assert solution == solution[..m] + solution[m..];
    CostRotate(inst, solution, m);
    forall k | 0 <= k < |r|
      ensures r[0] <= r[k]
    {
      assert r[k] in solution;
    }
  }
}
