/** The PGN helpers of fetch_and_build.py: `check_rating`, a line-oriented reader of the
    WhiteElo and BlackElo tags, and the loop of `fetch_games` that groups the lines of
    the downloaded text into games at blank lines and keeps the games both of whose
    players are rated at least `min_rating`. */
module RatingFilter {
  import opened Wrappers
  import opened PgnText

  const WhiteEloTag: string := "[WhiteElo "
  const BlackEloTag: string := "[BlackElo "

  /** The exceptions `int(line.split('"')[1])` can raise. */
  datatype RatingError =
    | MissingQuote(line: string)   // `split('"')` has one part: IndexError
    | NotAnInteger(text: string)   // `int()` refuses the text: ValueError

  /** The rating on a tag line: the integer between its first two quotes. */
  function TagValue(line: string): (r: Result<int, RatingError>)
    ensures r.Err? <==> QuotedField(line).None? || ParseInt(QuotedField(line).value).None?
  {
    match QuotedField(line)
    case None => Err(MissingQuote(line))
    case Some(v) =>
      match ParseInt(v)
      case None => Err(NotAnInteger(v))
      case Some(n) => Ok(n)
  }

  /** A line the loop of `check_rating` reads a rating from. */
  predicate IsRatingLine(line: string)
  {
    StartsWith(line, WhiteEloTag) || StartsWith(line, BlackEloTag)
  }

  /** One pass of the loop of `check_rating`: a WhiteElo line sets w, a BlackElo line
      sets b, any other line changes nothing. */
  function ReadTagLine(wb: (int, int), l: string): Result<(int, int), RatingError>
  {
    if StartsWith(l, WhiteEloTag) then
      match TagValue(l)
      case Err(err) => Err(err)
      case Ok(n) => Ok((n, wb.1))
    else if StartsWith(l, BlackEloTag) then
      match TagValue(l)
      case Err(err) => Err(err)
      case Ok(n) => Ok((wb.0, n))
    else Ok(wb)
  }

  /** `(w, b)` after the loop of `check_rating` has read these lines, or the exception
      it raises at the first tag line it cannot read. */
  function ScanRatings(lines: seq<string>): Result<(int, int), RatingError>
  {
    if lines == [] then Ok((0, 0))
    else
      match ScanRatings(lines[..|lines| - 1])
      case Err(err) => Err(err)
      case Ok(wb) => ReadTagLine(wb, lines[|lines| - 1])
  }

  /** Reading one more line of a prefix. */
  lemma ScanRatingsPrefix(lines: seq<string>, i: nat)
    requires i < |lines| && ScanRatings(lines[..i]).Ok?
    ensures ScanRatings(lines[..i + 1]) == ReadTagLine(ScanRatings(lines[..i]).value, lines[i])
  {
    assert lines[..i + 1][..i] == lines[..i];
  }

  /** `check_rating(pgn, min_rating)`. */
  function CheckRatingSpec(pgn: string, minRating: int): Result<bool, RatingError>
  {
    match ScanRatings(SplitLines(pgn))
    case Err(err) => Err(err)
    case Ok(wb) => Ok(wb.0 >= minRating && wb.1 >= minRating)
  }

  /** The body of the loop of `check_rating` (fetch_and_build.py:37-41) on the
      ratings (w, b) read so far: a WhiteElo line replaces w, a BlackElo line replaces b,
      any other line leaves both; reading a tag's value can fail. */
  method ReadRatingLine(w: int, b: int, line: string) returns (r: Result<(int, int), RatingError>)
    ensures StartsWith(line, WhiteEloTag) ==>
      r == (if TagValue(line).Ok? then Ok((TagValue(line).value, b)) else Err(TagValue(line).error))
    ensures StartsWith(line, BlackEloTag) ==>
      r == (if TagValue(line).Ok? then Ok((w, TagValue(line).value)) else Err(TagValue(line).error))
    ensures !IsRatingLine(line) ==> r == Ok((w, b))
  {
    TagsExclusive(line);
    if StartsWith(line, WhiteEloTag) {
      var v := TagValue(line);
      if v.Err? {
        return Err(v.error);
      }
      return Ok((v.value, b));
    } else if StartsWith(line, BlackEloTag) {
      var v := TagValue(line);
      if v.Err? {
        return Err(v.error);
      }
      return Ok((w, v.value));
    }
    return Ok((w, b));
  }

  /** The three cases of the loop body are one step of the scan. */
  lemma ReadLineIsStep(w: int, b: int, line: string, r: Result<(int, int), RatingError>)
    requires StartsWith(line, WhiteEloTag) ==>
      r == (if TagValue(line).Ok? then Ok((TagValue(line).value, b)) else Err(TagValue(line).error))
    requires StartsWith(line, BlackEloTag) ==>
      r == (if TagValue(line).Ok? then Ok((w, TagValue(line).value)) else Err(TagValue(line).error))
    requires !IsRatingLine(line) ==> r == Ok((w, b))
    ensures r == ReadTagLine((w, b), line)
  {
    TagsExclusive(line);
  }

  /** `check_rating` (fetch_and_build.py:34-41): both ratings start at 0 and every
      WhiteElo or BlackElo tag line overwrites its side's rating. */
  method CheckRating(pgn: string, minRating: int) returns (r: Result<bool, RatingError>)
    ensures r == CheckRatingSpec(pgn, minRating)
  {
    var lines := SplitLines(pgn);
    var w, b := 0, 0;
    var i := 0;
    while i < |lines|
      invariant 0 <= i <= |lines|
      invariant ScanRatings(lines[..i]) == Ok((w, b))
    {
      ScanRatingsPrefix(lines, i);
      var read := ReadRatingLine(w, b, lines[i]);
      ReadLineIsStep(w, b, lines[i], read);
      if read.Err? {
        ScanErrorStays(lines, i + 1);
        return Err(read.error);
      }
      w, b := read.value.0, read.value.1;
      i := i + 1;
    }
    assert lines[..i] == lines;
    return Ok(w >= minRating && b >= minRating);
  }

  /** Once the scan has failed, the lines after do not matter. */
  lemma {:induction false} ScanErrorStays(lines: seq<string>, n: nat)
    requires n <= |lines| && ScanRatings(lines[..n]).Err?
    ensures ScanRatings(lines) == ScanRatings(lines[..n])
    decreases |lines|
  {
    if n < |lines| {
      assert lines[..|lines| - 1][..n] == lines[..n];
      ScanErrorStays(lines[..|lines| - 1], n);
    } else {
      assert lines[..n] == lines;
    }
  }

  // ---------------------------------------------------------------------------
  // What the scan reads

  /** The index of the last line starting with tag, None when there is none. */
  function LastTagLine(lines: seq<string>, tag: string): (r: Option<nat>)
    ensures r.Some? ==> r.value < |lines| && StartsWith(lines[r.value], tag)
    ensures r.Some? ==> forall j | r.value < j < |lines| :: !StartsWith(lines[j], tag)
    ensures r.None? ==> forall j | 0 <= j < |lines| :: !StartsWith(lines[j], tag)
  {
    if lines == [] then None
    else if StartsWith(lines[|lines| - 1], tag) then Some(|lines| - 1)
    else LastTagLine(lines[..|lines| - 1], tag)
  }

  /** The rating a tag gives: the value on its last line, 0 when the tag is missing. */
  predicate RatingIs(lines: seq<string>, tag: string, v: int)
  {
    match LastTagLine(lines, tag)
    case None => v == 0
    case Some(i) => TagValue(lines[i]) == Ok(v)
  }

  /** A line cannot carry both tags. */
  lemma TagsExclusive(l: string)
    ensures !(StartsWith(l, WhiteEloTag) && StartsWith(l, BlackEloTag))
  {
    if StartsWith(l, WhiteEloTag) {
      assert l[1] == WhiteEloTag[1];
    }
  }

  /** One line of the scan: a WhiteElo line sets w, a BlackElo line sets b, any other
      line changes nothing. */
  lemma ScanStep(lines: seq<string>)
    requires lines != [] && ScanRatings(lines).Ok?
    ensures ScanRatings(lines[..|lines| - 1]).Ok?
    ensures StartsWith(lines[|lines| - 1], WhiteEloTag) ==>
      && TagValue(lines[|lines| - 1]).Ok?
      && ScanRatings(lines).value == (TagValue(lines[|lines| - 1]).value, ScanRatings(lines[..|lines| - 1]).value.1)
    ensures StartsWith(lines[|lines| - 1], BlackEloTag) ==>
      && TagValue(lines[|lines| - 1]).Ok?
      && ScanRatings(lines).value == (ScanRatings(lines[..|lines| - 1]).value.0, TagValue(lines[|lines| - 1]).value)
    ensures !IsRatingLine(lines[|lines| - 1]) ==>
      ScanRatings(lines).value == ScanRatings(lines[..|lines| - 1]).value
  {
    TagsExclusive(lines[|lines| - 1]);
  }

  /** A line without the tag keeps the rating the earlier lines give. */
  lemma RatingIsSnoc(lines: seq<string>, tag: string, v: int)
    requires lines != [] && !StartsWith(lines[|lines| - 1], tag)
    requires RatingIs(lines[..|lines| - 1], tag, v)
    ensures RatingIs(lines, tag, v)
  {
    match LastTagLine(lines[..|lines| - 1], tag)
    case None =>
    case Some(i) => assert lines[..|lines| - 1][i] == lines[i];
  }

  /** The last WhiteElo line wins, and a missing one counts as 0. */
  lemma {:induction false} ScanReadsWhite(lines: seq<string>)
    requires ScanRatings(lines).Ok?
    ensures RatingIs(lines, WhiteEloTag, ScanRatings(lines).value.0)
  {
    if lines != [] {
      ScanStep(lines);
      ScanReadsWhite(lines[..|lines| - 1]);
      if !StartsWith(lines[|lines| - 1], WhiteEloTag) {
        RatingIsSnoc(lines, WhiteEloTag, ScanRatings(lines).value.0);
      }
    }
  }

  /** The last BlackElo line wins, and a missing one counts as 0. */
  lemma {:induction false} ScanReadsBlack(lines: seq<string>)
    requires ScanRatings(lines).Ok?
    ensures RatingIs(lines, BlackEloTag, ScanRatings(lines).value.1)
  {
    if lines != [] {
      ScanStep(lines);
      ScanReadsBlack(lines[..|lines| - 1]);
      if !StartsWith(lines[|lines| - 1], BlackEloTag) {
        RatingIsSnoc(lines, BlackEloTag, ScanRatings(lines).value.1);
      }
    }
  }

  /** Some tag line's value is not an integer between quotes. */
  predicate HasBadTag(lines: seq<string>)
  {
    exists i :: 0 <= i < |lines| && IsRatingLine(lines[i]) && TagValue(lines[i]).Err?
  }

  lemma HasBadTagSnoc(lines: seq<string>)
    requires lines != []
    ensures HasBadTag(lines) <==>
      HasBadTag(lines[..|lines| - 1]) || (IsRatingLine(lines[|lines| - 1]) && TagValue(lines[|lines| - 1]).Err?)
  {
    var init := lines[..|lines| - 1];
    if HasBadTag(lines) {
      var i :| 0 <= i < |lines| && IsRatingLine(lines[i]) && TagValue(lines[i]).Err?;
      if i < |init| {
        assert init[i] == lines[i];
      }
    }
    if HasBadTag(init) {
      var i :| 0 <= i < |init| && IsRatingLine(init[i]) && TagValue(init[i]).Err?;
      assert lines[i] == init[i];
    }
  }

  /** The scan fails exactly when some tag line's value is not an integer between quotes. */
  lemma {:induction false} ScanFailsOnBadTag(lines: seq<string>)
    ensures ScanRatings(lines).Err? <==> HasBadTag(lines)
  {
    if lines != [] {
      ScanFailsOnBadTag(lines[..|lines| - 1]);
      HasBadTagSnoc(lines);
      TagsExclusive(lines[|lines| - 1]);
    }
  }

  /** `check_rating` is true exactly when the WhiteElo and the BlackElo it reads, each
      from the tag's last line and 0 without one, are both at least `min_rating`. */
  lemma CheckRatingMeaning(pgn: string, minRating: int, w: int, b: int)
    requires RatingIs(SplitLines(pgn), WhiteEloTag, w) && RatingIs(SplitLines(pgn), BlackEloTag, b)
    requires CheckRatingSpec(pgn, minRating).Ok?
    ensures CheckRatingSpec(pgn, minRating).value <==> w >= minRating && b >= minRating
  {
    ScanReadsWhite(SplitLines(pgn));
    ScanReadsBlack(SplitLines(pgn));
  }

  /** A game without a WhiteElo or without a BlackElo tag is never kept when
      `min_rating` is positive. */
  lemma MissingTagRejected(pgn: string, minRating: int)
    requires minRating > 0
    requires LastTagLine(SplitLines(pgn), WhiteEloTag).None? || LastTagLine(SplitLines(pgn), BlackEloTag).None?
    ensures CheckRatingSpec(pgn, minRating) != Ok(true)
  {
    if ScanRatings(SplitLines(pgn)).Ok? {
      ScanReadsWhite(SplitLines(pgn));
      ScanReadsBlack(SplitLines(pgn));
    }
  }

  // ---------------------------------------------------------------------------
  // Grouping lines into games (fetch_and_build.py:17-30)

  /** After a run of lines: the texts closed by blank lines, in order, and the text of
      the game still open. Every non-blank line is added to the open game followed by
      "\n"; a blank line closes the open game, even an empty one. */
  function Grouped(lines: seq<string>): (seq<string>, string)
  {
    if lines == [] then ([], "")
    else
      var g := Grouped(lines[..|lines| - 1]);
      var l := lines[|lines| - 1];
      if l == "" then (g.0 + [g.1], "") else (g.0, g.1 + l + "\n")
  }

  /** The games `check_rating` is asked about: every closed text, then the open one
      when it is not empty. */
  function Groups(lines: seq<string>): seq<string>
  {
    var g := Grouped(lines);
    g.0 + (if g.1 != "" then [g.1] else [])
  }

  /** The games kept out of these texts, stripped, or the first exception. */
  function KeepGames(groups: seq<string>, minRating: int): Result<seq<string>, RatingError>
  {
    if groups == [] then Ok([])
    else
      var g := groups[|groups| - 1];
      match KeepGames(groups[..|groups| - 1], minRating)
      case Err(err) => Err(err)
      case Ok(kept) =>
        match CheckRatingSpec(g, minRating)
        case Err(err) => Err(err)
        case Ok(pass) => Ok(if pass then kept + [Strip(g)] else kept)
  }

  /** The grouping loop of `fetch_games` over the decoded lines of the response. */
  method FetchGames(lines: seq<string>, minRating: int) returns (r: Result<seq<string>, RatingError>)
    ensures r == KeepGames(Groups(lines), minRating)
  {
    var games: seq<string> := [];
    var game := "";
    var i := 0;
    while i < |lines|
      invariant 0 <= i <= |lines|
      invariant game == Grouped(lines[..i]).1
      invariant KeepGames(Grouped(lines[..i]).0, minRating) == Ok(games)
    {
      var line := lines[i];
      assert lines[..i + 1][..i] == lines[..i];
      if line == "" {
        var keep := CheckRating(game, minRating);
        KeepGamesSnoc(Grouped(lines[..i]).0, game, minRating);
        if keep.Err? {
          GroupedGrows(lines, i + 1);
          KeepErrorStays(Grouped(lines[..i]).0 + [game], Groups(lines), minRating);
          return Err(keep.error);
        }
        if keep.value {
          games := games + [Strip(game)];
        }
        game := "";
      } else {
        game := game + line + "\n";
      }
      i := i + 1;
    }
    assert lines[..i] == lines;
    if game != "" {
      var keep := CheckRating(game, minRating);
      KeepGamesSnoc(Grouped(lines).0, game, minRating);
      assert Groups(lines) == Grouped(lines).0 + [game];
      if keep.Err? {
        return Err(keep.error);
      }
      if keep.value {
        games := games + [Strip(game)];
      }
    }
    assert game == "" ==> Groups(lines) == Grouped(lines).0;
    return Ok(games);
  }

  /** The closed texts of a run of lines stay closed as more lines follow. */
  lemma {:induction false} ClosedGrows(lines: seq<string>, n: nat)
    requires n <= |lines|
    ensures IsPrefix(Grouped(lines[..n]).0, Grouped(lines).0)
    decreases |lines|
  {
    if n < |lines| {
      assert lines[..|lines| - 1][..n] == lines[..n];
      ClosedGrows(lines[..|lines| - 1], n);
    } else {
      assert lines[..n] == lines;
    }
  }

  /** Every text closed by the first n lines is among the games `check_rating` is asked
      about, at the same place. */
  lemma GroupedGrows(lines: seq<string>, n: nat)
    requires n <= |lines|
    ensures IsPrefix(Grouped(lines[..n]).0, Groups(lines))
  {
    ClosedGrows(lines, n);
    var c := Grouped(lines[..n]).0;
    assert Groups(lines)[..|c|] == Grouped(lines).0[..|c|];
  }

  /** Keeping one more text. */
  lemma KeepGamesSnoc(groups: seq<string>, g: string, minRating: int)
    ensures KeepGames(groups + [g], minRating) ==
      match KeepGames(groups, minRating)
      case Err(err) => Err(err)
      case Ok(kept) =>
        match CheckRatingSpec(g, minRating)
        case Err(err) => Err(err)
        case Ok(pass) => Ok(if pass then kept + [Strip(g)] else kept)
  {
    assert (groups + [g])[..|groups|] == groups;
  }

  predicate IsPrefix(a: seq<string>, b: seq<string>)
  {
    |a| <= |b| && b[..|a|] == a
  }

  /** Once a text fails to parse, the texts after do not matter. */
  lemma {:induction false} KeepErrorStays(prefix: seq<string>, groups: seq<string>, minRating: int)
    requires IsPrefix(prefix, groups) && KeepGames(prefix, minRating).Err?
    ensures KeepGames(groups, minRating) == KeepGames(prefix, minRating)
    decreases |groups|
  {
    if |prefix| < |groups| {
      KeepErrorStays(prefix, groups[..|groups| - 1], minRating);
    } else {
      assert groups == prefix;
    }
  }

  // ---------------------------------------------------------------------------
  // What the grouping keeps

  /** The texts back to back. */
  function Concat(texts: seq<string>): string
  {
    if texts == [] then "" else Concat(texts[..|texts| - 1]) + texts[|texts| - 1]
  }

  /** The non-blank lines, in order. */
  function NonBlank(lines: seq<string>): seq<string>
  {
    if lines == [] then []
    else NonBlank(lines[..|lines| - 1]) + (if lines[|lines| - 1] == "" then [] else [lines[|lines| - 1]])
  }

  /** Grouping loses no line and reorders none: the closed texts and the open one,
      back to back, are the non-blank lines each followed by "\n". */
  lemma {:induction false} GroupingKeepsText(lines: seq<string>)
    ensures Concat(Grouped(lines).0) + Grouped(lines).1 == JoinLines(NonBlank(lines))
  {
    if lines != [] {
      var init, l := lines[..|lines| - 1], lines[|lines| - 1];
      GroupingKeepsText(init);
      var g := Grouped(init);
      if l == "" {
        assert (g.0 + [g.1])[..|g.0|] == g.0;
        assert NonBlank(lines) == NonBlank(init);
      } else {
        var nb := NonBlank(init) + [l];
        assert nb[..|nb| - 1] == NonBlank(init);
      }
    }
  }

  /** a is b with some elements left out. */
  predicate Subsequence(a: seq<string>, b: seq<string>)
    decreases |b|
  {
    if a == [] then true
    else if b == [] then false
    else if a[|a| - 1] == b[|b| - 1] && Subsequence(a[..|a| - 1], b[..|b| - 1]) then true
    else Subsequence(a, b[..|b| - 1])
  }

  lemma {:induction false} SubsequenceLength(a: seq<string>, b: seq<string>)
    requires Subsequence(a, b)
    ensures |a| <= |b|
    decreases |b|
  {
    if a != [] && b != [] {
      if a[|a| - 1] == b[|b| - 1] && Subsequence(a[..|a| - 1], b[..|b| - 1]) {
        SubsequenceLength(a[..|a| - 1], b[..|b| - 1]);
      } else {
        SubsequenceLength(a, b[..|b| - 1]);
      }
    }
  }

  lemma {:induction false} SubsequenceSnoc(a: seq<string>, b: seq<string>, x: string)
    requires Subsequence(a, b)
    ensures Subsequence(a, b + [x])
    decreases |b|
  {
    if a != [] {
      assert (b + [x])[..|b|] == b;
    }
  }

  /** Every text, stripped. */
  function StripAll(texts: seq<string>): (r: seq<string>)
    ensures |r| == |texts|
  {
    if texts == [] then [] else StripAll(texts[..|texts| - 1]) + [Strip(texts[|texts| - 1])]
  }

  /** The games kept are the stripped texts that pass `check_rating`, in input order,
      and never more than there are texts. */
  lemma {:induction false} KeptInOrder(groups: seq<string>, minRating: int)
    requires KeepGames(groups, minRating).Ok?
    ensures Subsequence(KeepGames(groups, minRating).value, StripAll(groups))
    ensures |KeepGames(groups, minRating).value| <= |groups|
  {
    if groups != [] {
      var init, g := groups[..|groups| - 1], groups[|groups| - 1];
      KeptInOrder(init, minRating);
      var sa := StripAll(groups);
      assert sa[..|sa| - 1] == StripAll(init) && sa[|sa| - 1] == Strip(g);
      if CheckRatingSpec(g, minRating) == Ok(true) {
        var kept := KeepGames(groups, minRating).value;
        assert kept[..|kept| - 1] == KeepGames(init, minRating).value;
      } else {
        SubsequenceSnoc(KeepGames(init, minRating).value, StripAll(init), Strip(g));
      }
    }
    SubsequenceLength(KeepGames(groups, minRating).value, StripAll(groups));
  }

  /** x is the stripped text of some text that passes `check_rating`. */
  predicate FromPassingText(groups: seq<string>, minRating: int, x: string)
  {
    exists i :: 0 <= i < |groups| && CheckRatingSpec(groups[i], minRating) == Ok(true) && x == Strip(groups[i])
  }

  lemma FromPassingTextInit(groups: seq<string>, minRating: int, x: string)
    requires groups != [] && FromPassingText(groups[..|groups| - 1], minRating, x)
    ensures FromPassingText(groups, minRating, x)
  {
    var init := groups[..|groups| - 1];
    var i :| 0 <= i < |init| && CheckRatingSpec(init[i], minRating) == Ok(true) && x == Strip(init[i]);
    assert groups[i] == init[i];
  }

  lemma FromPassingTextLast(groups: seq<string>, minRating: int, x: string)
    requires groups != []
    requires CheckRatingSpec(groups[|groups| - 1], minRating) == Ok(true) && x == Strip(groups[|groups| - 1])
    ensures FromPassingText(groups, minRating, x)
  {
  }

  lemma FromPassingTextCases(groups: seq<string>, minRating: int, x: string)
    requires groups != [] && FromPassingText(groups, minRating, x)
    ensures || FromPassingText(groups[..|groups| - 1], minRating, x)
            || (CheckRatingSpec(groups[|groups| - 1], minRating) == Ok(true) && x == Strip(groups[|groups| - 1]))
  {
    var init := groups[..|groups| - 1];
    var i :| 0 <= i < |groups| && CheckRatingSpec(groups[i], minRating) == Ok(true) && x == Strip(groups[i]);
    if i < |init| {
      assert init[i] == groups[i];
      assert FromPassingText(init, minRating, x);
    } else {
      assert i == |groups| - 1;
    }
  }

  /** A game is kept exactly when it is the stripped text of a text that passes. */
  lemma {:induction false} KeptIffPassing(groups: seq<string>, minRating: int, x: string)
    requires KeepGames(groups, minRating).Ok?
    ensures x in KeepGames(groups, minRating).value <==> FromPassingText(groups, minRating, x)
  {
    if groups != [] {
      KeptIffPassing(groups[..|groups| - 1], minRating, x);
      if FromPassingText(groups, minRating, x) {
        FromPassingTextCases(groups, minRating, x);
      }
      if FromPassingText(groups[..|groups| - 1], minRating, x) {
        FromPassingTextInit(groups, minRating, x);
      }
      if CheckRatingSpec(groups[|groups| - 1], minRating) == Ok(true) && x == Strip(groups[|groups| - 1]) {
        FromPassingTextLast(groups, minRating, x);
      }
    }
  }

  /** When the loop returns games, `check_rating` raised on none of the texts. */
  lemma {:induction false} KeptMeansAllRead(groups: seq<string>, minRating: int)
    requires KeepGames(groups, minRating).Ok?
    ensures forall i | 0 <= i < |groups| :: CheckRatingSpec(groups[i], minRating).Ok?
  {
    if groups != [] {
      var init := groups[..|groups| - 1];
      KeptMeansAllRead(init, minRating);
      forall i | 0 <= i < |init| ensures groups[i] == init[i] {
      }
    }
  }
}
