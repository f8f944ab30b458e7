/**
 * The photograph pipeline of `Main`: the command line, the black/white cutoff adjusted to
 * the photograph, the cutting of the photograph into the black cards, and the naming of
 * each card that shows a carrot and a QR code, with the check that the number of named
 * cards is the one expected before anything is written.
 */
module CarrotMain {
  import opened Wrappers
  import opened Numeric
  import opened Text
  import opened JavaImage
  import opened ImageBoxes
  import opened BoxFinding
  import Straightener

  // ---------------------------------------------------------------- command line

  /** `<file input> <output root dir> <expected num carrots> [inverted]` */
  datatype Args = Args(input: string, outputDir: string, numCarrots: int, invert: bool)

  /**
   * `main`'s argument checks, in Java's order: `args[0]` is read before the count is
   * checked, the count before parsing, and the optional fourth word last.
   */
  function ParseArgs(args: seq<string>): (r: Result<Args>)
    ensures |args| == 0 ==> r == Err("ArrayIndexOutOfBoundsException")
    ensures r.Ok? <==>
      (|args| == 3 || |args| == 4) && ParseJavaInt(args[2]).Some? && (|args| == 4 ==> Lower(args[3]) == "inverted")
    ensures r.Ok? ==>
      r.value.input == args[0] && r.value.outputDir == args[1]
      && r.value.numCarrots == ParseJavaInt(args[2]).value && (r.value.invert <==> |args| == 4)
  {
    if |args| == 0 then Err("ArrayIndexOutOfBoundsException")
    else if |args| != 3 && |args| != 4 then Err("IllegalArgumentException")
    else
      match ParseJavaInt(args[2])
      case None => Err("NumberFormatException")
      case Some(numCarrots) =>
        var invert := |args| == 4 && Lower(args[3]) == "inverted";
        if |args| == 4 && !invert then Err("IllegalArgumentException")
        else Ok(Args(args[0], args[1], numCarrots, invert))
  }

  // ---------------------------------------------------------------- colour tests

  /** `CARROT_DETECT`: red above 50 with blue below 50, or red exceeding blue by more than 30. */
  predicate CarrotDetect(c: Rgb)
  {
    (c.r > 50 && c.b < 50) || c.r - c.b > 30
  }

  /** A carrot pixel is redder than it is blue, so no grey pixel is a carrot pixel. */
  lemma CarrotIsRedderThanBlue(c: Rgb)
    requires CarrotDetect(c)
    ensures c.r > c.b
    ensures c.r != c.g || c.g != c.b
  {
  }

  /** The tallies of `findAdjustedCutoff`: red sums and counts of dark and of light near-grey pixels. */
  datatype Tally = Tally(min: int, nMin: int, max: int, nMax: int)

  function Add(t: Tally, u: Tally): Tally
  {
    Tally(t.min + u.min, t.nMin + u.nMin, t.max + u.max, t.nMax + u.nMax)
  }

  /** A near-grey pixel (red less than 15 above blue) is dark below red 60 and light above red 110. */
  function TallyOf(c: Rgb): Tally
  {
    if c.r - c.b < 15 then
      if c.r < 60 then Tally(c.r, 1, 0, 0)
      else if c.r > 110 then Tally(0, 0, c.r, 1)
      else Tally(0, 0, 0, 0)
    else Tally(0, 0, 0, 0)
  }

  function ColumnTally(img: seq<seq<Rgb>>, x: int, n: int): Tally
    requires IsRect(img) && 0 <= x < ImgWidth(img) && 0 <= n <= ImgHeight(img)
  {
    if n == 0 then Tally(0, 0, 0, 0) else Add(ColumnTally(img, x, n - 1), TallyOf(img[x][n - 1]))
  }

  /** The tallies over the first `n` columns. */
  function ImageTally(img: seq<seq<Rgb>>, n: int): Tally
    requires IsRect(img) && 0 <= n <= ImgWidth(img)
  {
    if n == 0 then Tally(0, 0, 0, 0) else Add(ImageTally(img, n - 1), ColumnTally(img, n - 1, ImgHeight(img)))
  }

  /** The dark and light mean reds, an empty class counting once, and the midpoint of the two. */
  function AdjustedAverage(t: Tally): int
  {
    var nMin := if t.nMin == 0 then 1 else t.nMin;
    var nMax := if t.nMax == 0 then 1 else t.nMax;
    JavaDiv(JavaDiv(t.min, nMin) + JavaDiv(t.max, nMax), 2)
  }

  /** The returned predicate: red above the average when inverted, below it otherwise. */
  predicate Cutoff(avg: int, invert: bool, c: Rgb)
  {
    if invert then c.r > avg else c.r < avg
  }

  /** `findAdjustedCutoff`: the tally loop over every pixel; the cutoff is `Cutoff(avg, invert, _)`. */
  method FindAdjustedCutoff(img: seq<seq<Rgb>>) returns (avg: int)
    requires IsRect(img)
    ensures avg == AdjustedAverage(ImageTally(img, ImgWidth(img)))
  {
    var min, nMin, max, nMax := 0, 0, 0, 0;
    var x := 0;
    while x < |img|
      invariant 0 <= x <= |img|
      invariant Tally(min, nMin, max, nMax) == ImageTally(img, x)
    {
      var y := 0;
      while y < |img[0]|
        invariant 0 <= y <= |img[0]|
        invariant Tally(min, nMin, max, nMax) == Add(ImageTally(img, x), ColumnTally(img, x, y))
      {
        var c := img[x][y];
        if c.r - c.b < 15 {
          if c.r < 60 {
            min := min + c.r;
            nMin := nMin + 1;
          } else if c.r > 110 {
            max := max + c.r;
            nMax := nMax + 1;
          }
        }
        y := y + 1;
      }
      x := x + 1;
    }
    if nMin == 0 {
      nMin := nMin + 1;
    }
    if nMax == 0 {
      nMax := nMax + 1;
    }
    min := JavaDiv(min, nMin);
    max := JavaDiv(max, nMax);
    avg := JavaDiv(min + max, 2);
  }

  /** Dark reds lie in 0..59 and light reds in 111..255, so the sums are bounded by the counts. */
  predicate TallyBounded(t: Tally)
  {
    0 <= t.nMin && 0 <= t.min <= 59 * t.nMin && 0 <= t.nMax && 111 * t.nMax <= t.max <= 255 * t.nMax
  }

  lemma {:induction false} ColumnTallyBounded(img: seq<seq<Rgb>>, x: int, n: int)
    requires IsImage(img) && 0 <= x < ImgWidth(img) && 0 <= n <= ImgHeight(img)
    ensures TallyBounded(ColumnTally(img, x, n))
  {
    if n > 0 {
      ColumnTallyBounded(img, x, n - 1);
      assert IsColour(img[x][n - 1]);
    }
  }

  lemma {:induction false} ImageTallyBounded(img: seq<seq<Rgb>>, n: int)
    requires IsImage(img) && 0 <= n <= ImgWidth(img)
    ensures TallyBounded(ImageTally(img, n))
  {
    if n > 0 {
      ImageTallyBounded(img, n - 1);
      ColumnTallyBounded(img, n - 1, ImgHeight(img));
    }
  }

  /**
   * The adjusted cutoff lies between the dark and the light mean red: with both classes
   * present, the plain cutoff keeps every pixel no redder than the dark mean and drops
   * every pixel at least as red as the light mean, and the inverted cutoff the opposite.
   * With no light pixel it is at most 29, with no dark pixel at least 55.
   */
  lemma CutoffSeparatesMeans(img: seq<seq<Rgb>>, c: Rgb)
    requires IsImage(img)
    ensures var t := ImageTally(img, ImgWidth(img));
      var avg := AdjustedAverage(t);
      0 <= avg <= 157
      && (t.nMin > 0 && t.nMax > 0 ==>
        t.min / t.nMin < avg < t.max / t.nMax
        && (c.r <= t.min / t.nMin ==> Cutoff(avg, false, c) && !Cutoff(avg, true, c))
        && (c.r >= t.max / t.nMax ==> !Cutoff(avg, false, c) && Cutoff(avg, true, c)))
      && (t.nMax == 0 ==> avg <= 29)
      && (t.nMin == 0 && t.nMax > 0 ==> 55 <= avg)
  {
    var t := ImageTally(img, ImgWidth(img));
    ImageTallyBounded(img, ImgWidth(img));
    var nMin := if t.nMin == 0 then 1 else t.nMin;
    var nMax := if t.nMax == 0 then 1 else t.nMax;
    JavaDivNonNegative(t.min, nMin);
    JavaDivNonNegative(t.max, nMax);
    var dark := t.min / nMin;
    var light := t.max / nMax;
    if t.nMin > 0 {
      FloorMeanBetween(t.min, nMin, 0, 59);
    } else {
      assert dark == 0;
    }
    if t.nMax > 0 {
      FloorMeanBetween(t.max, nMax, 111, 255);
    } else {
      assert light == 0;
    }
    JavaDivNonNegative(dark + light, 2);
  }

  // ---------------------------------------------------------------- output names

  /** An output file: the folder under the output root and the file name in it. */
  datatype OutFile = OutFile(folder: string, name: string)

  /**
   * The folder of a QR text: from just after the first `Source_` up to the next `}` (with
   * no `Source_`, from index 6); substring failures are StringIndexOutOfBoundsExceptions.
   */
  function FolderOf(text: string): Result<string>
  {
    var sourceStart := IndexOf(text, "Source_", 0) + 7;
    match Substring(text, sourceStart, IndexOf(text, "}", sourceStart))
    case None => Err("StringIndexOutOfBoundsException")
    case Some(folder) => Ok(folder)
  }

  /** The QR text from its first `{` through its last `}`. */
  function TrimmedName(text: string): Result<string>
  {
    match Substring(text, IndexOf(text, "{", 0), LastIndexOfChar(text, '}') + 1)
    case None => Err("StringIndexOutOfBoundsException")
    case Some(name) => Ok(name)
  }

  /**
   * A text holding `Source_`, a folder name without `}` and then `}`, with no `Source_`
   * before it, names that folder.
   */
  lemma FolderOfReads(pre: string, folder: string, post: string)
    requires !Text.Contains(pre + "Source", "Source_")
    requires forall i :: 0 <= i < |folder| ==> folder[i] != '}'
    ensures FolderOf(pre + "Source_" + folder + "}" + post) == Ok(folder)
  {
    var text := pre + "Source_" + folder + "}" + post;
    var at := |pre|;
    var start := at + 7;
    var close := start + |folder|;
    assert OccursAt(text, "Source_", at);
    forall i | 0 <= i < at
      ensures !OccursAt(text, "Source_", i)
    {
      if i + 7 <= at + 6 {
        assert text[i..i + 7] == (pre + "Source")[i..i + 7];
        assert !OccursAt(pre + "Source", "Source_", i);
      }
    }
    IndexOfIs(text, "Source_", 0, at);
    forall i | start <= i < close
      ensures text[i] != '}'
    {
      assert text[i] == folder[i - start];
    }
    assert text[close] == '}';
    IndexOfCharIs(text, '}', start, close);
    assert text[start..close] == folder;
  }

  /**
   * A text `pre + name + post` whose name runs from a `{` to a `}`, with no `{` before it
   * and no `}` after it, is trimmed to that name.
   */
  lemma TrimmedNameReads(pre: string, name: string, post: string)
    requires |name| >= 1 && name[0] == '{' && name[|name| - 1] == '}'
    requires forall i :: 0 <= i < |pre| ==> pre[i] != '{'
    requires forall i :: 0 <= i < |post| ==> post[i] != '}'
    ensures TrimmedName(pre + name + post) == Ok(name)
  {
    var text := pre + name + post;
    var last := |pre| + |name| - 1;
    assert text[|pre|] == '{' && text[last] == '}';
    forall i | 0 <= i < |pre|
      ensures text[i] != '{'
    {
      assert text[i] == pre[i];
    }
    IndexOfCharIs(text, '{', 0, |pre|);
    forall i | last < i < |text|
      ensures text[i] != '}'
    {
      assert text[i] == post[i - last - 1];
    }
    LastIndexOfCharIs(text, '}', last);
    assert text[|pre|..last + 1] == name;
  }

  /** `fileName + "{Photo_" + k + "}" + ".png"` */
  function PhotoName(name: string, k: nat): string
  {
    name + "{Photo_" + IntToString(k) + "}.png"
  }

  /** Different copy numbers give different names. */
  lemma PhotoNameInjective(name: string, j: nat, k: nat)
    requires PhotoName(name, j) == PhotoName(name, k)
    ensures j == k
  {
    var a, b := IntToString(j), IntToString(k);
    var p := PhotoName(name, j);
    var start := |name| + 7;
    assert |a| == |b|;
    assert p[start..start + |a|] == a;
    assert PhotoName(name, k)[start..start + |b|] == b;
    IntToStringInjective(j, k);
  }

  /** The copies `0..k` of a name in a folder. */
  function Claimed(folder: string, name: string, k: nat): set<OutFile>
  {
    set j | 0 <= j < k :: OutFile(folder, PhotoName(name, j))
  }

  /** Trying copy `k` because it is on disk leaves fewer files on disk to try. */
  lemma ClaimedStep(disk: set<OutFile>, folder: string, name: string, k: nat)
    requires OutFile(folder, PhotoName(name, k)) in disk
    ensures |disk - Claimed(folder, name, k + 1)| < |disk - Claimed(folder, name, k)|
  {
    var o := OutFile(folder, PhotoName(name, k));
    assert Claimed(folder, name, k + 1) == Claimed(folder, name, k) + {o};
    forall j | 0 <= j < k
      ensures OutFile(folder, PhotoName(name, j)) != o
    {
      if PhotoName(name, j) == PhotoName(name, k) {
        PhotoNameInjective(name, j, k);
      }
    }
    assert o !in Claimed(folder, name, k);
    assert disk - Claimed(folder, name, k + 1) == (disk - Claimed(folder, name, k)) - {o};
  }

  /** The first copy number from `k` on whose file is not on disk. */
  function FirstFree(disk: set<OutFile>, folder: string, name: string, k: nat): (r: nat)
    ensures k <= r && OutFile(folder, PhotoName(name, r)) !in disk
    ensures forall j :: k <= j < r ==> OutFile(folder, PhotoName(name, j)) in disk
    decreases |disk - Claimed(folder, name, k)|
  {
    if OutFile(folder, PhotoName(name, k)) in disk then
      ClaimedStep(disk, folder, name, k);
      FirstFree(disk, folder, name, k + 1)
    else k
  }

  /** The `numCopies` loop: `{Photo_0}`, `{Photo_1}`, ... until a file that does not exist. */
  method PickOutput(disk: set<OutFile>, folder: string, name: string) returns (output: OutFile)
    ensures output == OutFile(folder, PhotoName(name, FirstFree(disk, folder, name, 0)))
  {
    output := OutFile(folder, PhotoName(name, 0));
    var numCopies := 1;
    while output in disk
      invariant numCopies >= 1 && output == OutFile(folder, PhotoName(name, numCopies - 1))
      invariant FirstFree(disk, folder, name, 0) == FirstFree(disk, folder, name, numCopies - 1)
      decreases |disk - Claimed(folder, name, numCopies - 1)|
    {
      ClaimedStep(disk, folder, name, numCopies - 1);
      output := OutFile(folder, PhotoName(name, numCopies));
      numCopies := numCopies + 1;
    }
  }

  /** The output file of a card with QR text `text`, given the files already on disk. */
  function NameCard(disk: set<OutFile>, text: string): (r: Result<OutFile>)
    ensures r.Ok? ==> r.value !in disk
  {
    match FolderOf(text)
    case Err(e) => Err(e)
    case Ok(folder) =>
      match TrimmedName(text)
      case Err(e) => Err(e)
      case Ok(name) => Ok(OutFile(folder, PhotoName(name, FirstFree(disk, folder, name, 0))))
  }

  // ---------------------------------------------------------------- the naming loop

  /** What the loop learns of a card: its QR text (`None` when no code was read) and whether a carrot was found. */
  datatype Card = Card(text: Option<string>, carrotFound: bool)

  /** A card is named when it has both; `None` when it is skipped. */
  function CardOutput(disk: set<OutFile>, c: Card): Result<Option<OutFile>>
  {
    if c.text.Some? && c.carrotFound then
      match NameCard(disk, c.text.value)
      case Err(e) => Err(e)
      case Ok(o) => Ok(Some(o))
    else Ok(None)
  }

  /** `toWrite` after the first `n` outcomes: each named card is put under its file, replacing an earlier one; an exception stops the run. */
  function Collect(outs: seq<Result<Option<OutFile>>>, n: int): Result<map<OutFile, nat>>
    requires 0 <= n <= |outs|
  {
    if n == 0 then Ok(map[])
    else
      match Collect(outs, n - 1)
      case Err(e) => Err(e)
      case Ok(toWrite) =>
        match outs[n - 1]
        case Err(e) => Err(e)
        case Ok(None) => Ok(toWrite)
        case Ok(Some(o)) => Ok(toWrite[o := n - 1])
  }

  /** One more outcome: an exception, a skipped card, or a card put under its file. */
  lemma CollectStep(outs: seq<Result<Option<OutFile>>>, i: int, toWrite: map<OutFile, nat>, out: Result<Option<OutFile>>)
    requires 0 <= i < |outs| && Collect(outs, i) == Ok(toWrite) && outs[i] == out
    ensures out.Err? ==> Collect(outs, i + 1) == Err(out.error)
    ensures out.Ok? && out.value.None? ==> Collect(outs, i + 1) == Ok(toWrite)
    ensures out.Ok? && out.value.Some? ==> Collect(outs, i + 1) == Ok(toWrite[out.value.value := i])
  {
  }

  /** An exception stops the loop: the later cards change nothing. */
  lemma {:induction false} CollectErrorStops(outs: seq<Result<Option<OutFile>>>, i: int, n: int)
    requires 0 <= i <= n <= |outs| && Collect(outs, i).Err?
    ensures Collect(outs, n) == Collect(outs, i)
    decreases n
  {
    if n > i {
      CollectErrorStops(outs, i, n - 1);
    }
  }

  /** The first card that raises an exception decides the outcome of the whole loop. */
  lemma CollectFailsAt(outs: seq<Result<Option<OutFile>>>, i: int, toWrite: map<OutFile, nat>)
    requires 0 <= i < |outs| && Collect(outs, i) == Ok(toWrite) && outs[i].Err?
    ensures Collect(outs, |outs|) == Err(outs[i].error)
  {
    CollectStep(outs, i, toWrite, outs[i]);
    CollectErrorStops(outs, i + 1, |outs|);
  }

  /** `toWrite` after the first `n` cards, when no exception stopped the loop: no card raised one. */
  lemma {:induction false} CollectAllOk(outs: seq<Result<Option<OutFile>>>, n: int)
    requires 0 <= n <= |outs| && Collect(outs, n).Ok?
    ensures forall i :: 0 <= i < n ==> outs[i].Ok?
  {
    if n > 0 {
      CollectAllOk(outs, n - 1);
    }
  }

  /** Each key holds a card named to it. */
  lemma {:induction false} CollectKeys(outs: seq<Result<Option<OutFile>>>, n: int)
    requires 0 <= n <= |outs| && Collect(outs, n).Ok?
    ensures var m := Collect(outs, n).value;
      forall o :: o in m ==> m[o] < n && outs[m[o]] == Ok(Some(o))
  {
    if n > 0 {
      CollectKeys(outs, n - 1);
      var prev := Collect(outs, n - 1).value;
      var out := outs[n - 1].value;
      if out.Some? {
        assert Collect(outs, n).value == prev[out.value := n - 1];
      } else {
        assert Collect(outs, n).value == prev;
      }
    }
  }

  /** Each key holds the last card named to it: earlier cards of the same name are overwritten. */
  lemma {:induction false} CollectLastWins(outs: seq<Result<Option<OutFile>>>, n: int)
    requires 0 <= n <= |outs| && Collect(outs, n).Ok?
    ensures var m := Collect(outs, n).value;
      forall o, j :: o in m && m[o] < j < n ==> outs[j] != Ok(Some(o))
  {
    if n > 0 {
      CollectLastWins(outs, n - 1);
      CollectKeys(outs, n - 1);
      var prev := Collect(outs, n - 1).value;
      var m := Collect(outs, n).value;
      var out := outs[n - 1].value;
      assert m == if out.Some? then prev[out.value := n - 1] else prev;
      forall o, j | o in m && m[o] < j < n
        ensures outs[j] != Ok(Some(o))
      {
        if out.None? || out.value != o {
          assert o in prev && m[o] == prev[o];
          if j == n - 1 {
            assert outs[j] == Ok(out);
          }
        }
      }
    }
  }

  /** Every card with a carrot and a QR code has its file among the keys. */
  lemma {:induction false} CollectComplete(outs: seq<Result<Option<OutFile>>>, n: int)
    requires 0 <= n <= |outs| && Collect(outs, n).Ok?
    ensures var m := Collect(outs, n).value;
      forall i :: 0 <= i < n && outs[i].Ok? && outs[i].value.Some? ==>
        outs[i].value.value in m
  {
    if n > 0 {
      CollectComplete(outs, n - 1);
      var prev := Collect(outs, n - 1).value;
      var m := Collect(outs, n).value;
      var out := outs[n - 1].value;
      assert m == if out.Some? then prev[out.value := n - 1] else prev;
      assert prev.Keys <= m.Keys;
      forall i | 0 <= i < n && outs[i].Ok? && outs[i].value.Some?
        ensures outs[i].value.value in m
      {
        if i < n - 1 {
          assert outs[i].value.value in prev;
        }
      }
    }
  }

  /** The outcome of naming each card in turn. */
  function Outputs(disk: set<OutFile>, cards: seq<Card>): (r: seq<Result<Option<OutFile>>>)
    ensures |r| == |cards| && forall i :: 0 <= i < |cards| ==> r[i] == CardOutput(disk, cards[i])
  {
    seq(|cards|, i requires 0 <= i < |cards| => CardOutput(disk, cards[i]))
  }

  /** The files to write, by card index, or the exception that stops the run. */
  function Plan(disk: set<OutFile>, cards: seq<Card>, numCarrots: int): Result<map<OutFile, nat>>
  {
    match Collect(Outputs(disk, cards), |cards|)
    case Err(e) => Err(e)
    case Ok(toWrite) => if |toWrite| != numCarrots then Err("IllegalArgumentException") else Ok(toWrite)
  }

  /**
   * When the run goes through, exactly `numCarrots` files are written, none of them on
   * disk before, each holding a card that shows a carrot and whose QR text names that
   * file, the last such card for the file; every named card's file is written.
   */
  lemma PlanMeaning(disk: set<OutFile>, cards: seq<Card>, numCarrots: int)
    requires Plan(disk, cards, numCarrots).Ok?
    ensures var m := Plan(disk, cards, numCarrots).value;
      |m| == numCarrots
      && (forall o :: o in m ==>
        o !in disk && m[o] < |cards| && cards[m[o]].carrotFound && cards[m[o]].text.Some?
        && NameCard(disk, cards[m[o]].text.value) == Ok(o))
      && (forall o, j :: o in m && m[o] < j < |cards| ==> CardOutput(disk, cards[j]) != Ok(Some(o)))
      && (forall i :: 0 <= i < |cards| && cards[i].carrotFound && cards[i].text.Some? ==>
        NameCard(disk, cards[i].text.value).Ok? && NameCard(disk, cards[i].text.value).value in m)
  {
    var outs := Outputs(disk, cards);
    CollectAllOk(outs, |cards|);
    CollectKeys(outs, |cards|);
    CollectLastWins(outs, |cards|);
    CollectComplete(outs, |cards|);
    var m := Plan(disk, cards, numCarrots).value;
    forall i | 0 <= i < |cards| && cards[i].carrotFound && cards[i].text.Some?
      ensures NameCard(disk, cards[i].text.value).Ok? && NameCard(disk, cards[i].text.value).value in m
    {
      assert CardOutput(disk, cards[i]).Ok?;
    }
  }

  /** With no exception on the way, the loop runs over every outcome. */
  lemma {:induction false} CollectNoError(outs: seq<Result<Option<OutFile>>>, n: int)
    requires 0 <= n <= |outs| && forall i :: 0 <= i < n ==> outs[i].Ok?
    ensures Collect(outs, n).Ok?
  {
    if n > 0 {
      CollectNoError(outs, n - 1);
    }
  }

  /** The files that the cards with a carrot and a readable QR text are named to. */
  function NamedFiles(disk: set<OutFile>, cards: seq<Card>): set<OutFile>
  {
    set i | 0 <= i < |cards| && cards[i].carrotFound && cards[i].text.Some? && NameCard(disk, cards[i].text.value).Ok?
      :: NameCard(disk, cards[i].text.value).value
  }

  /**
   * When every card with a carrot and a QR text can be named, the run goes through
   * exactly when the number of distinct files named equals `numCarrots`, and the files
   * written are exactly those.
   */
  lemma PlanSucceeds(disk: set<OutFile>, cards: seq<Card>, numCarrots: int)
    requires forall i :: 0 <= i < |cards| && cards[i].carrotFound && cards[i].text.Some? ==>
      NameCard(disk, cards[i].text.value).Ok?
    ensures Plan(disk, cards, numCarrots).Ok? <==> |NamedFiles(disk, cards)| == numCarrots
    ensures Plan(disk, cards, numCarrots).Ok? ==> Plan(disk, cards, numCarrots).value.Keys == NamedFiles(disk, cards)
  {
    var outs := Outputs(disk, cards);
    forall i | 0 <= i < |cards|
      ensures outs[i].Ok?
    {
      assert outs[i] == CardOutput(disk, cards[i]);
    }
    CollectNoError(outs, |cards|);
    CollectKeys(outs, |cards|);
    CollectComplete(outs, |cards|);
    var m := Collect(outs, |cards|).value;
    var named := NamedFiles(disk, cards);
    forall o | o in m
      ensures o in named
    {
      var i := m[o];
      assert outs[i] == CardOutput(disk, cards[i]) == Ok(Some(o));
    }
    forall o | o in named
      ensures o in m
    {
      var i :| 0 <= i < |cards| && cards[i].carrotFound && cards[i].text.Some? && NameCard(disk, cards[i].text.value).Ok?
        && o == NameCard(disk, cards[i].text.value).value;
      assert outs[i] == CardOutput(disk, cards[i]) == Ok(Some(o));
    }
    assert m.Keys == named;
  }

  /** A card with a carrot whose QR text cannot be named makes the whole run fail. */
  lemma PlanFails(disk: set<OutFile>, cards: seq<Card>, numCarrots: int, i: int)
    requires 0 <= i < |cards| && cards[i].carrotFound && cards[i].text.Some?
    requires NameCard(disk, cards[i].text.value).Err?
    ensures Plan(disk, cards, numCarrots).Err?
  {
    var outs := Outputs(disk, cards);
    assert outs[i] == CardOutput(disk, cards[i]) && outs[i].Err?;
    if Collect(outs, |cards|).Ok? {
      CollectAllOk(outs, |cards|);
      assert false;
    }
  }

  /** The loop of `process` over the cards, with the count check after it. */
  method NameCards(disk: set<OutFile>, cards: seq<Card>, numCarrots: int) returns (r: Result<map<OutFile, nat>>)
    ensures r == Plan(disk, cards, numCarrots)
  {
    var collected := CollectCards(disk, cards, Outputs(disk, cards));
    if collected.Err? {
      return Err(collected.error);
    }
    if |collected.value| != numCarrots {
      return Err("IllegalArgumentException");
    }
    return collected;
  }

  /** The loop itself, against the outcomes `outs` of the cards: each card's file, or the first exception. */
  method CollectCards(disk: set<OutFile>, cards: seq<Card>, ghost outs: seq<Result<Option<OutFile>>>)
    returns (r: Result<map<OutFile, nat>>)
    requires |outs| == |cards|
    requires forall k {:trigger CardOutput(disk, cards[k])} :: 0 <= k < |cards| ==> outs[k] == CardOutput(disk, cards[k])
    ensures r == Collect(outs, |outs|)
  {
    var toWrite: map<OutFile, nat> := map[];
    var i := 0;
    while i < |cards|
      invariant 0 <= i <= |cards| && Collect(outs, i) == Ok(toWrite)
    {
      var out := NameOne(disk, cards[i]);
      assert out == outs[i];
      if out.Err? {
        CollectFailsAt(outs, i, toWrite);
        return Err(out.error);
      }
      CollectStep(outs, i, toWrite, out);
      if out.value.Some? {
        toWrite := toWrite[out.value.value := i];
      }
      i := i + 1;
    }
    return Ok(toWrite);
  }

  /** The body of that loop for one card: its folder, its trimmed name and the first free copy number. */
  method NameOne(disk: set<OutFile>, c: Card) returns (out: Result<Option<OutFile>>)
    ensures out == CardOutput(disk, c)
  {
    if c.text.Some? && c.carrotFound {
      var fileName := c.text.value;
      var folder := FolderOf(fileName);
      if folder.Err? {
        return Err(folder.error);
      }
      var name := TrimmedName(fileName);
      if name.Err? {
        return Err(name.error);
      }
      var output := PickOutput(disk, folder.value, name.value);
      return Ok(Some(output));
    }
    return Ok(None);
  }

  // ---------------------------------------------------------------- one photograph

  /** The cutoff's verdict on every pixel. */
  function CutoffMask(img: seq<seq<Rgb>>, avg: int, invert: bool): (m: seq<seq<bool>>)
    requires IsRect(img)
    ensures IsRect(m) && ImgWidth(m) == ImgWidth(img) && ImgHeight(m) == ImgHeight(img)
    ensures forall x, y :: 0 <= x < ImgWidth(img) && 0 <= y < ImgHeight(img) ==> m[x][y] == Cutoff(avg, invert, img[x][y])
  {
    seq(|img|, x requires 0 <= x < |img| => seq(|img[x]|, y requires 0 <= y < |img[x]| => Cutoff(avg, invert, img[x][y])))
  }

  /** `CARROT_DETECT`'s verdict on every pixel. */
  function CarrotMask(img: seq<seq<Rgb>>): (m: seq<seq<bool>>)
    requires IsRect(img)
    ensures IsRect(m) && ImgWidth(m) == ImgWidth(img) && ImgHeight(m) == ImgHeight(img)
    ensures forall x, y :: 0 <= x < ImgWidth(img) && 0 <= y < ImgHeight(img) ==> m[x][y] == CarrotDetect(img[x][y])
  {
    seq(|img|, x requires 0 <= x < |img| => seq(|img[x]|, y requires 0 <= y < |img[x]| => CarrotDetect(img[x][y])))
  }

  predicate HasCarrotPixel(img: seq<seq<Rgb>>)
    requires IsRect(img)
  {
    exists x, y :: 0 <= x < ImgWidth(img) && 0 <= y < ImgHeight(img) && CarrotDetect(img[x][y])
  }

  /**
   * `carrotFound`: a box search with `CARROT_DETECT` and minimum width 30 that stops at
   * the first box.  A card reported as holding a carrot has a carrot-coloured pixel and is
   * more than 30 pixels wide and high.
   */
  method CarrotFound(crop: seq<seq<Rgb>>) returns (found: bool)
    requires IsRect(crop)
    ensures found ==> HasCarrotPixel(crop) && ImgWidth(crop) > 30 && ImgHeight(crop) > 30
  {
    var mask := CarrotMask(crop);
    var finder := new BoxFinder(mask, 30);
    var boxes := finder.FindBoxes(true);
    found := |boxes| != 0;
    if found {
      RecordedBoxEvidence(mask, 30, boxes, 0, crop);
      var x, y :| InImage(mask, x, y) && mask[x][y];
      assert CarrotDetect(crop[x][y]);
    }
  }

  /** The box search over the photograph with the adjusted cutoff and minimum width 600. */
  method FindCards(img: seq<seq<Rgb>>, invert: bool) returns (avg: int, boxes: seq<ImageBox>)
    requires IsRect(img)
    ensures avg == AdjustedAverage(ImageTally(img, ImgWidth(img)))
    ensures forall k :: 0 <= k < |boxes| ==> Recorded(CutoffMask(img, avg, invert), 600, boxes, k)
  {
    avg := FindAdjustedCutoff(img);
    var finder := new BoxFinder(CutoffMask(img, avg, invert), 600);
    boxes := finder.FindBoxes(false);
  }

  /** What the loop recorded of the card cut out along box `b`: its QR text and, when a carrot was reported, a carrot pixel. */
  predicate CardRead(img: seq<seq<Rgb>>, b: ImageBox, extract: seq<seq<Rgb>> -> Option<string>, c: Card)
    requires IsRect(img)
  {
    Crop(img, b).Ok? && IsRect(Crop(img, b).value)
    && c.text == extract(Crop(img, b).value)
    && (c.carrotFound ==> HasCarrotPixel(Crop(img, b).value))
  }

  /** A file of the plan holds a card that crops, shows a carrot pixel, and whose QR text names the file. */
  predicate Delivers(img: seq<seq<Rgb>>, b: ImageBox, extract: seq<seq<Rgb>> -> Option<string>, disk: set<OutFile>, o: OutFile)
    requires IsRect(img)
  {
    o !in disk && Crop(img, b).Ok? && IsRect(Crop(img, b).value)
    && HasCarrotPixel(Crop(img, b).value)
    && extract(Crop(img, b).value).Some?
    && NameCard(disk, extract(Crop(img, b).value).value) == Ok(o)
  }

  lemma PlanDelivers(img: seq<seq<Rgb>>, boxes: seq<ImageBox>, extract: seq<seq<Rgb>> -> Option<string>,
                     disk: set<OutFile>, cards: seq<Card>, numCarrots: int)
    requires IsRect(img) && |cards| == |boxes| && Plan(disk, cards, numCarrots).Ok?
    requires forall k :: 0 <= k < |cards| ==> CardRead(img, boxes[k], extract, cards[k])
    ensures var m := Plan(disk, cards, numCarrots).value;
      |m| == numCarrots
      && forall o :: o in m ==> m[o] < |boxes| && Delivers(img, boxes[m[o]], extract, disk, o)
  {
    PlanMeaning(disk, cards, numCarrots);
    var m := Plan(disk, cards, numCarrots).value;
    forall o | o in m
      ensures m[o] < |boxes| && Delivers(img, boxes[m[o]], extract, disk, o)
    {
      assert CardRead(img, boxes[m[o]], extract, cards[m[o]]);
    }
  }

  /**
   * `process` for one photograph, with the QR decoder `extract` given: the cards are cut
   * out, each is checked for a carrot and read, and the named cards are collected.  When
   * the run goes through, exactly `numCarrots` files are written, none on disk before, each
   * holding a card that crops without exception, shows a carrot-coloured pixel and has a
   * QR text naming that file.  The result is `Plan` of the cards as read, so what
   * `PlanMeaning`, `PlanSucceeds` and `PlanFails` prove of `Plan` holds of every run.
   */
  method Process(img: seq<seq<Rgb>>, invert: bool, numCarrots: int, disk: set<OutFile>,
                 extract: seq<seq<Rgb>> -> Option<string>)
    returns (r: Result<map<OutFile, nat>>, boxes: seq<ImageBox>, cards: seq<Card>)
    requires IsRect(img)
    ensures |cards| == |boxes| && forall k :: 0 <= k < |cards| ==> CardRead(img, boxes[k], extract, cards[k])
    ensures r == Plan(disk, cards, numCarrots)
    ensures r.Ok? ==> |r.value| == numCarrots
    ensures r.Ok? ==> forall o :: o in r.value ==> r.value[o] < |boxes| && Delivers(img, boxes[r.value[o]], extract, disk, o)
  {
    var avg;
    avg, boxes := FindCards(img, invert);
    ghost var mask := CutoffMask(img, avg, invert);
    cards := [];
    var i := 0;
    while i < |boxes|
      invariant 0 <= i <= |boxes| && |cards| == i
      invariant forall k :: 0 <= k < i ==> CardRead(img, boxes[k], extract, cards[k])
    {
      RecordedBoxEvidence(mask, 600, boxes, i, img);
      var crop := Crop(img, boxes[i]).value;
      CropHoldsContained(img, boxes[i]);
      var carrotFound := CarrotFound(crop);
      var fileName := extract(crop);
      cards := cards + [Card(fileName, carrotFound)];
      i := i + 1;
    }
    r := NameCards(disk, cards, numCarrots);
    if r.Ok? {
      PlanDelivers(img, boxes, extract, disk, cards, numCarrots);
    }
  }
}
