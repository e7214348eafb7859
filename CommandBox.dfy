/** The command-word autocompletion of the command box: a case-insensitive
    edit distance, a similarity ratio, and the resolution of typed text to the
    closest known command word. */
module CommandMatching {
  import opened Options

  /** Text put into the command box when no command word is close enough. */
  const NoMatchedCommand: string := "No matched command!"

  /** The command words offered for completion, in registration order. */
  const CommandList: seq<string> :=
    ["add", "clear", "delete", "edit", "exit", "find", "help", "history", "list", "redo", "undo"]

  /** Result of resolving typed text against a vocabulary. */
  datatype Match = Matched(word: string) | NoMatch

  /** What the command box shows for a match. */
  function Render(m: Match): string
  {
    match m
    case Matched(w) => w
    case NoMatch => NoMatchedCommand
  }

  // ---------------------------------------------------------------------------
  // Edit distance

  /** The least of three integers. */
  function Min3(one: int, two: int, three: int): (r: int)
    ensures r <= one && r <= two && r <= three
    ensures r == one || r == two || r == three
  {
    var least := if one < two then one else two;
    if least < three then least else three
  }

  function Max(a: nat, b: nat): nat
  {
    if a < b then b else a
  }

  /** Substitution cost: free when the two character codes are equal or differ
      by exactly 32, which covers upper/lower case ASCII letters but also pairs
      such as '0' and 'P'. */
  function SubstitutionCost(a: char, b: char): (r: nat)
    ensures r <= 1
    ensures r == 0 <==> a == b || a as int - b as int == 32 || b as int - a as int == 32
  {
    if a == b || a as int == b as int + 32 || a as int + 32 == b as int then 0 else 1
  }

  /** Cell (i, j) of the comparison table: the edit distance from the first
      `i` characters of `t` to the first `j` characters of `c`, with unit
      insertions and deletions and SubstitutionCost for substitutions. */
  function Distance(t: string, c: string, i: nat, j: nat): (r: nat)
    requires i <= |t| && j <= |c|
    ensures i - j <= r && j - i <= r
    decreases i + j
  {
    if i == 0 then j
    else if j == 0 then i
    else Min3(Distance(t, c, i - 1, j) + 1,
              Distance(t, c, i, j - 1) + 1,
              Distance(t, c, i - 1, j - 1) + SubstitutionCost(t[i - 1], c[j - 1]))
  }

  /** The distance between two whole strings: the last cell of the table. It
      is at least the length difference and at most the longer length. */
  function EditDistance(t: string, c: string): (r: nat)
  {
    Distance(t, c, |t|, |c|)
  }

  lemma DistanceBounds(t: string, c: string)
    ensures |t| - |c| <= EditDistance(t, c) && |c| - |t| <= EditDistance(t, c)
    ensures EditDistance(t, c) <= Max(|t|, |c|)
  {
    CellUpperBound(t, c, |t|, |c|);
  }

  lemma {:induction false} CellUpperBound(t: string, c: string, i: nat, j: nat)
    requires i <= |t| && j <= |c|
    ensures Distance(t, c, i, j) <= Max(i, j)
    decreases i + j
  {
    if i > 0 && j > 0 {
      CellUpperBound(t, c, i - 1, j - 1);
      assert Distance(t, c, i, j) <= Distance(t, c, i - 1, j - 1) + 1;
    }
  }

  lemma {:induction false} ZeroCellIff(t: string, c: string, i: nat, j: nat)
    requires i <= |t| && j <= |c|
    ensures Distance(t, c, i, j) == 0 <==>
      i == j && forall k :: 0 <= k < i ==> SubstitutionCost(t[k], c[k]) == 0
    decreases i + j
  {
    CellUpperBound(t, c, i, j);
    if i > 0 && j > 0 {
      ZeroCellIff(t, c, i - 1, j - 1);
      CellUpperBound(t, c, i - 1, j);
      CellUpperBound(t, c, i, j - 1);
    }
  }

  /** Distance zero exactly when the two strings have equal length and every
      pair of aligned characters substitutes for free. */
  lemma ZeroDistanceIff(t: string, c: string)
    ensures EditDistance(t, c) == 0 <==>
      |t| == |c| && forall k :: 0 <= k < |t| ==> SubstitutionCost(t[k], c[k]) == 0
  {
    ZeroCellIff(t, c, |t|, |c|);
  }

  lemma {:induction false} AllMismatchCell(t: string, c: string, i: nat, j: nat)
    requires i <= |t| && j <= |c|
    requires forall a, b :: 0 <= a < i && 0 <= b < j ==> SubstitutionCost(t[a], c[b]) == 1
    ensures Distance(t, c, i, j) == Max(i, j)
    decreases i + j
  {
    CellUpperBound(t, c, i, j);
    if i > 0 && j > 0 {
      AllMismatchCell(t, c, i - 1, j);
      AllMismatchCell(t, c, i, j - 1);
      AllMismatchCell(t, c, i - 1, j - 1);
    }
  }

  /** When no character of `t` substitutes for free with any character of
      `c`, the distance is the longer length. */
  lemma AllMismatchDistance(t: string, c: string)
    requires forall a, b :: 0 <= a < |t| && 0 <= b < |c| ==> SubstitutionCost(t[a], c[b]) == 1
    ensures EditDistance(t, c) == Max(|t|, |c|)
  {
    AllMismatchCell(t, c, |t|, |c|);
  }

  /** One step of the recurrence, from the three neighbouring cells. */
  lemma CellStep(t: string, c: string, i: nat, j: nat, up: nat, left: nat, diagonal: nat)
    requires 0 < i <= |t| && 0 < j <= |c|
    requires up == Distance(t, c, i - 1, j) && left == Distance(t, c, i, j - 1)
    requires diagonal == Distance(t, c, i - 1, j - 1)
    ensures Distance(t, c, i, j) == Min3(up + 1, left + 1, diagonal + SubstitutionCost(t[i - 1], c[j - 1]))
  {
  }

  /** Row `r` of the table holds the distances from the first `r` characters
      of `text` to every prefix of `command`. */
  ghost predicate RowDone(difference: array2<nat>, text: string, command: string, r: nat)
    reads difference
    requires r <= |text| && difference.Length0 == |text| + 1 && difference.Length1 == |command| + 1
  {
    forall b {:trigger difference[r, b]} :: 0 <= b <= |command| ==> difference[r, b] == Distance(text, command, r, b)
  }

  /** Fills row `i` of the table from row `i - 1`, left to right. */
  method FillRow(difference: array2<nat>, text: string, command: string, i: nat)
    requires 0 < i <= |text| && difference.Length0 == |text| + 1 && difference.Length1 == |command| + 1
    requires RowDone(difference, text, command, i - 1) && difference[i, 0] == i
    modifies difference
    ensures RowDone(difference, text, command, i)
    ensures forall a :: i < a <= |text| ==> difference[a, 0] == old(difference[a, 0])
  {
    var ch1 := text[i - 1];
    for j := 1 to |command| + 1
      invariant RowDone(difference, text, command, i - 1)
      invariant forall b {:trigger difference[i, b]} :: 0 <= b < j ==> difference[i, b] == Distance(text, command, i, b)
      invariant forall a :: i < a <= |text| ==> difference[a, 0] == old(difference[a, 0])
    {
      var ch2 := command[j - 1];
      var temp := if ch1 == ch2 || ch1 as int == ch2 as int + 32 || ch1 as int + 32 == ch2 as int then 0 else 1;
      assert temp == SubstitutionCost(text[i - 1], command[j - 1]);
      var up, left, diagonal := difference[i - 1, j], difference[i, j - 1], difference[i - 1, j - 1];
      CellStep(text, command, i, j, up, left, diagonal);
      difference[i, j] := Min3(up + 1, left + 1, diagonal + temp);
    }
  }

  /** Fills the (|text|+1) x (|command|+1) dynamic-programming table and
      returns its last cell. */
  method Compare(text: string, command: string) returns (d: nat)
    ensures d == EditDistance(text, command)
  {
    var textLength, commandLength := |text|, |command|;
    if textLength == 0 {
      return commandLength;
    }
    if commandLength == 0 {
      return textLength;
    }
    var difference := new nat[textLength + 1, commandLength + 1];
    for i := 0 to textLength + 1
      invariant forall k :: 0 <= k < i ==> difference[k, 0] == k
    {
      difference[i, 0] := i;
    }
    for j := 0 to commandLength + 1
      invariant forall k :: 0 <= k < j ==> difference[0, k] == k
      invariant forall k :: 0 <= k <= textLength ==> difference[k, 0] == k
    {
      difference[0, j] := j;
    }
    for i := 1 to textLength + 1
      invariant RowDone(difference, text, command, i - 1)
      invariant forall a :: i <= a <= textLength ==> difference[a, 0] == a
    {
      FillRow(difference, text, command, i);
    }
    d := difference[textLength, commandLength];
  }

  // ---------------------------------------------------------------------------
  // Similarity ratio

  /** The similarity ratio 1 - distance / max(|t|, |c|), kept exact. */
  function SimilarityRatio(t: string, c: string): (r: real)
    requires |t| > 0 || |c| > 0
    ensures 0.0 <= r <= 1.0
  {
    var m := Max(|t|, |c|);
    var d := EditDistance(t, c);
    DistanceBounds(t, c);
    QuotientAtMostOne(d, m);
    1.0 - (d as real) / (m as real)
  }

  lemma QuotientAtMostOne(d: nat, m: nat)
    requires 0 < m && d <= m
    ensures 0.0 <= (d as real) / (m as real) <= 1.0
  {
    assert (d as real) / (m as real) * (m as real) == d as real;
  }

  lemma PositiveFactor(x: real, y: real)
    requires y > 0.0
    ensures x * y > 0.0 <==> x > 0.0
  {
    if x > 0.0 {
      assert x * y > 0.0;
    } else {
      assert x * y <= 0.0;
    }
  }

  lemma ShiftedProduct(q: real, y: real)
    ensures (q - 0.5) * y == q * y - 0.5 * y
  {
  }

  lemma HalfThreshold(d: nat, m: nat)
    requires 0 < m
    ensures 1.0 - (d as real) / (m as real) < 0.5 <==> 2 * d > m
  {
    var dr, mr := d as real, m as real;
    var q := dr / mr;
    assert q * mr == dr;
    ShiftedProduct(q, mr);
    PositiveFactor(q - 0.5, mr);
    assert 1.0 - q < 0.5 <==> q - 0.5 > 0.0;
    assert q - 0.5 > 0.0 <==> dr - 0.5 * mr > 0.0;
    assert 2 * d > m <==> 2.0 * dr > mr;
  }

  lemma CrossMultiply(da: nat, ma: nat, db: nat, mb: nat)
    requires 0 < ma && 0 < mb
    ensures 1.0 - (da as real) / (ma as real) > 1.0 - (db as real) / (mb as real) <==> da * mb < db * ma
  {
    var ra, rb := ma as real, mb as real;
    var qa, qb := (da as real) / ra, (db as real) / rb;
    assert qa * ra == da as real && qb * rb == db as real;
    assert (da * mb) as real == qa * (ra * rb);
    assert (db * ma) as real == qb * (ra * rb);
    if qa < qb {
      assert qa * (ra * rb) < qb * (ra * rb);
    } else {
      assert qa * (ra * rb) >= qb * (ra * rb);
    }
  }

  /** A ratio falls below one half exactly when twice the distance exceeds the longer length. */
  lemma BelowHalfIff(t: string, c: string)
    requires |t| > 0 || |c| > 0
    ensures SimilarityRatio(t, c) < 0.5 <==> 2 * EditDistance(t, c) > Max(|t|, |c|)
  {
    HalfThreshold(EditDistance(t, c), Max(|t|, |c|));
  }

  /** Comparing two ratios for the same text is comparing cross-multiplied distances. */
  lemma GreaterIff(t: string, a: string, b: string)
    requires |t| > 0
    ensures SimilarityRatio(t, a) > SimilarityRatio(t, b) <==>
      EditDistance(t, a) * Max(|t|, |b|) < EditDistance(t, b) * Max(|t|, |a|)
  {
    CrossMultiply(EditDistance(t, a), Max(|t|, |a|), EditDistance(t, b), Max(|t|, |b|));
  }

  /** Computes the similarity ratio through the table-filling comparison. */
  method GetSimilarityRatio(text: string, commands: string) returns (r: real)
    requires |text| > 0 || |commands| > 0
    ensures r == SimilarityRatio(text, commands)
  {
    var max := Max(|text|, |commands|);
    var d := Compare(text, commands);
    r := 1.0 - (d as real) / (max as real);
  }

  // ---------------------------------------------------------------------------
  // Resolution of typed text

  /** `text` completes to `word`: case-sensitive, and no longer than `word`. */
  predicate IsPrefix(text: string, word: string)
  {
    |text| <= |word| && text == word[..|text|]
  }

  /** The prefix test is `startsWith`: no longer than the word, and equal to it
      character by character. */
  lemma IsPrefixIff(text: string, word: string)
    ensures IsPrefix(text, word) <==> |text| <= |word| && forall k :: 0 <= k < |text| ==> text[k] == word[k]
  {
    if |text| <= |word| && forall k :: 0 <= k < |text| ==> text[k] == word[k] {
      assert text == word[..|text|];
    }
  }

  /** Index of the first word of `vocab` that `text` is a prefix of. */
  function FirstPrefix(text: string, vocab: seq<string>): (r: Option<nat>)
    ensures r.Some? ==> (r.value < |vocab| && IsPrefix(text, vocab[r.value]) &&
      forall j :: 0 <= j < r.value ==> !IsPrefix(text, vocab[j]))
    ensures r.None? ==> forall j :: 0 <= j < |vocab| ==> !IsPrefix(text, vocab[j])
  {
    if |vocab| == 0 then None
    else if IsPrefix(text, vocab[0]) then Some(0)
    else match FirstPrefix(text, vocab[1..])
      case None => None
      case Some(k) => Some(k + 1)
  }

  /** `k` has the highest ratio among the first `n` words, and every earlier
      word's ratio is strictly lower. */
  ghost predicate IsFirstMaximal(text: string, vocab: seq<string>, n: nat, k: nat)
    requires |text| > 0 && n <= |vocab|
  {
    k < n &&
    (forall j :: 0 <= j < n ==> SimilarityRatio(text, vocab[j]) <= SimilarityRatio(text, vocab[k])) &&
    (forall j :: 0 <= j < k ==> SimilarityRatio(text, vocab[j]) < SimilarityRatio(text, vocab[k]))
  }

  /** The first word with the highest ratio among the first `n` words of `vocab`. */
  function FirstBest(text: string, vocab: seq<string>, n: nat): (k: nat)
    requires |text| > 0 && 0 < n <= |vocab|
    ensures k < n
  {
    if n == 1 then 0
    else
      var k := FirstBest(text, vocab, n - 1);
      if SimilarityRatio(text, vocab[k]) < SimilarityRatio(text, vocab[n - 1]) then n - 1 else k
  }

  /** FirstBest picks the first word of highest ratio among the first `n`. */
  lemma {:induction false} FirstBestIsFirstMaximal(text: string, vocab: seq<string>, n: nat)
    requires |text| > 0 && 0 < n <= |vocab|
    ensures IsFirstMaximal(text, vocab, n, FirstBest(text, vocab, n))
    decreases n
  {
    if n > 1 {
      FirstBestIsFirstMaximal(text, vocab, n - 1);
    }
  }

  /** The word the command box completes `text` to: the first word `text` is a
      prefix of; otherwise the first word of highest ratio, if that ratio is at
      least one half. */
  function Resolve(text: string, vocab: seq<string>): (r: Match)
    ensures r.Matched? ==> r.word in vocab
    ensures (exists k :: 0 <= k < |vocab| && IsPrefix(text, vocab[k])) ==> r.Matched?
  {
    match FirstPrefix(text, vocab)
    case Some(k) => Matched(vocab[k])
    case None =>
      if |vocab| == 0 then NoMatch
      else
        // "" is a prefix of every word, so `text` is not empty here
        assert !IsPrefix(text, vocab[0]);
        var k := FirstBest(text, vocab, |vocab|);
        if SimilarityRatio(text, vocab[k]) < 0.5 then NoMatch else Matched(vocab[k])
  }

  /** No command word is a prefix of another, so each word typed in full
      completes to itself. */
  lemma CommandWordsCompleteToThemselves()
    ensures forall k :: 0 <= k < |CommandList| ==> Resolve(CommandList[k], CommandList) == Matched(CommandList[k])
  {
    forall k | 0 <= k < |CommandList|
      ensures Resolve(CommandList[k], CommandList) == Matched(CommandList[k])
    {
      assert IsPrefix(CommandList[k], CommandList[k]);
      forall j | 0 <= j < k ensures !IsPrefix(CommandList[k], CommandList[j]) {
        assert CommandList[k][0] != CommandList[j][0] || CommandList[k][1] != CommandList[j][1];
        IsPrefixIff(CommandList[k], CommandList[j]);
      }
      PrefixTakesPrecedence(CommandList[k], CommandList, k);
    }
  }

  /** One step of the scan below: the remembered ratio and word move to word
      `i` exactly when the scan's test says so, and then agree with FirstBest. */
  lemma ScanStep(text: string, vocab: seq<string>, i: nat, highest: real, ratio: real)
    requires |text| > 0 && i < |vocab|
    requires i == 0 ==> highest == 0.0
    requires i > 0 ==> highest == SimilarityRatio(text, vocab[FirstBest(text, vocab, i)])
    requires ratio == SimilarityRatio(text, vocab[i])
    ensures (highest == 0.0 || highest < ratio) ==>
      ratio == SimilarityRatio(text, vocab[FirstBest(text, vocab, i + 1)]) &&
      (ratio != 0.0 ==> FirstBest(text, vocab, i + 1) == i)
    ensures !(highest == 0.0 || highest < ratio) ==> FirstBest(text, vocab, i + 1) == FirstBest(text, vocab, i)
  {
  }

  /** Scans `commandList` in order, returning on the first prefix hit and
      otherwise remembering the best ratio seen. */
  method GetMostSimilarCommand(text: string, commandList: seq<string>) returns (r: string)
    ensures r == Render(Resolve(text, commandList))
  {
    var length := |text|;
    var highestRatio := 0.0;
    var highestRatioCommand := "";  // stands for null; returned only after an assignment
    for i := 0 to |commandList|
      invariant forall j :: 0 <= j < i ==> !IsPrefix(text, commandList[j])
      invariant i == 0 ==> highestRatio == 0.0
      invariant i > 0 ==> (|text| > 0 &&
        highestRatio == SimilarityRatio(text, commandList[FirstBest(text, commandList, i)]))
      invariant i > 0 && highestRatio != 0.0 ==>
        highestRatioCommand == commandList[FirstBest(text, commandList, i)]
    {
      var commands := commandList[i];
      if length <= |commands| && text == commands[..length] {
        PrefixTakesPrecedence(text, commandList, i);
        return commands;
      } else {
        assert !IsPrefix(text, commandList[i]);
        var ratio := GetSimilarityRatio(text, commands);
        ScanStep(text, commandList, i, highestRatio, ratio);
        if highestRatio == 0.0 || highestRatio < ratio {
          highestRatio := ratio;
          highestRatioCommand := commands;
        }
      }
    }
    if highestRatio < 0.5 {
      return NoMatchedCommand;
    }
    return highestRatioCommand;
  }

  // ---------------------------------------------------------------------------
  // Properties of the resolution

  /** A prefix hit decides the result, whatever the ratios: the first word in
      vocabulary order that `text` is a prefix of. */
  lemma PrefixTakesPrecedence(text: string, vocab: seq<string>, k: nat)
    requires k < |vocab| && IsPrefix(text, vocab[k])
    requires forall j :: 0 <= j < k ==> !IsPrefix(text, vocab[j])
    ensures Resolve(text, vocab) == Matched(vocab[k])
  {
    assert FirstPrefix(text, vocab).Some?;
  }

  /** Empty text completes to the first word, so the 0/0 ratio never arises. */
  lemma EmptyTextMatchesFirstWord(vocab: seq<string>)
    requires |vocab| > 0
    ensures Resolve("", vocab) == Matched(vocab[0])
  {
    assert IsPrefix("", vocab[0]);
    PrefixTakesPrecedence("", vocab, 0);
  }

  /** An empty vocabulary never matches. */
  lemma EmptyVocabularyNoMatch(text: string)
    ensures Resolve(text, []) == NoMatch
  {
  }

  /** Without a prefix hit, the result is a word of maximal ratio that no
      earlier word ties, and its ratio is at least one half. */
  lemma FirstMaximalWins(text: string, vocab: seq<string>, w: string)
    requires forall j :: 0 <= j < |vocab| ==> !IsPrefix(text, vocab[j])
    requires Resolve(text, vocab) == Matched(w)
    ensures |text| > 0
    ensures exists k :: (0 <= k < |vocab| && vocab[k] == w && IsFirstMaximal(text, vocab, |vocab|, k) &&
      2 * EditDistance(text, w) <= Max(|text|, |w|))
  {
    assert !IsPrefix(text, vocab[0]);
    var k := FirstBest(text, vocab, |vocab|);
    FirstBestIsFirstMaximal(text, vocab, |vocab|);
    BelowHalfIff(text, vocab[k]);
    assert vocab[k] == w;
  }

  /** No match exactly when no word has `text` as a prefix and every word is
      more than half edits. */
  lemma NoMatchIff(text: string, vocab: seq<string>)
    ensures Resolve(text, vocab) == NoMatch <==>
      (forall j :: 0 <= j < |vocab| ==> !IsPrefix(text, vocab[j])) &&
      (forall j :: 0 <= j < |vocab| ==> 2 * EditDistance(text, vocab[j]) > Max(|text|, |vocab[j]|))
  {
    if FirstPrefix(text, vocab).None? && |vocab| > 0 {
      assert !IsPrefix(text, vocab[0]);
      var k := FirstBest(text, vocab, |vocab|);
      FirstBestIsFirstMaximal(text, vocab, |vocab|);
      BelowHalfIff(text, vocab[k]);
      if SimilarityRatio(text, vocab[k]) < 0.5 {
        forall j | 0 <= j < |vocab| ensures 2 * EditDistance(text, vocab[j]) > Max(|text|, |vocab[j]|) {
          BelowHalfIff(text, vocab[j]);
        }
      }
    }
  }

  /** Completion on a sample vocabulary: "de" completes to "delete". */
  lemma SampleVocabularyPrefix()
    ensures Resolve("de", ["add", "delete", "edit", "list", "clear"]) == Matched("delete")
  {
    var vocab := ["add", "delete", "edit", "list", "clear"];
    assert vocab[0][..2][0] != "de"[0];
    assert IsPrefix("de", vocab[1]);
    PrefixTakesPrecedence("de", vocab, 1);
  }

  /** "zzzzzzzz" is too far from every sample word. */
  lemma SampleVocabularyThreshold()
    ensures Resolve("zzzzzzzz", ["add", "delete", "edit", "list", "clear"]) == NoMatch
  {
    var text, vocab := "zzzzzzzz", ["add", "delete", "edit", "list", "clear"];
    forall j | 0 <= j < |vocab|
      ensures !IsPrefix(text, vocab[j])
      ensures 2 * EditDistance(text, vocab[j]) > Max(|text|, |vocab[j]|)
    {
      AllMismatchDistance(text, vocab[j]);
    }
    NoMatchIff(text, vocab);
  }

  /** Without a prefix hit, the first word at distance 0 (ratio 1) is the result. */
  lemma FirstExactWins(text: string, vocab: seq<string>, k: nat)
    requires k < |vocab| && |text| > 0
    requires forall j :: 0 <= j < |vocab| ==> !IsPrefix(text, vocab[j])
    requires EditDistance(text, vocab[k]) == 0
    requires forall j :: 0 <= j < k ==> EditDistance(text, vocab[j]) > 0
    ensures Resolve(text, vocab) == Matched(vocab[k])
  {
    assert FirstPrefix(text, vocab).None?;
    var best := FirstBest(text, vocab, |vocab|);
    FirstBestIsFirstMaximal(text, vocab, |vocab|);
    ZeroDistanceRatio(text, vocab[k]);
    ZeroDistanceRatio(text, vocab[best]);
    assert SimilarityRatio(text, vocab[k]) <= SimilarityRatio(text, vocab[best]);
    assert best == k;
  }

  /** Ratio 1 only at distance 0. */
  lemma ZeroDistanceRatio(t: string, c: string)
    requires |t| > 0
    ensures SimilarityRatio(t, c) == 1.0 <==> EditDistance(t, c) == 0
  {
    var d, m := EditDistance(t, c) as real, Max(|t|, |c|) as real;
    assert (d / m) * m == d;
  }

  /** Case is ignored by the distance: "ADD" is at distance 0 from "add" and
      resolves to it although it is no prefix of it. */
  lemma CaseInsensitiveMatch()
    ensures EditDistance("ADD", "add") == 0
    ensures Resolve("ADD", ["add", "delete"]) == Matched("add")
  {
    var text, vocab := "ADD", ["add", "delete"];
    ZeroDistanceIff(text, vocab[0]);
    assert !IsPrefix(text, vocab[0]) && !IsPrefix(text, vocab[1]);
    FirstExactWins(text, vocab, 0);
  }

  /** The free substitution is wider than case folding: '0' and 'P' are 32 apart. */
  lemma CodesThirtyTwoApartMatch()
    ensures EditDistance("0", "P") == 0 && EditDistance("@", "`") == 0
    ensures EditDistance("a", "b") == 1
  {
    SingleCharDistance('0', 'P');
    SingleCharDistance('@', '`');
    SingleCharDistance('a', 'b');
  }

  /** Between two one-character strings the distance is the substitution cost. */
  lemma SingleCharDistance(a: char, b: char)
    ensures EditDistance([a], [b]) == SubstitutionCost(a, b)
  {
    assert Distance([a], [b], 1, 1) ==
      Min3(Distance([a], [b], 0, 1) + 1, Distance([a], [b], 1, 0) + 1, Distance([a], [b], 0, 0) + SubstitutionCost(a, b));
  }

  /** On the command box's own vocabulary, empty text completes to "add". */
  lemma EmptyTextOnCommandList()
    ensures Resolve("", CommandList) == Matched("add")
  {
    EmptyTextMatchesFirstWord(CommandList);
  }
}
