/** `readfiletime`: one date per raster file name, read from the `YYYYMM`
    token of names shaped `VAR_YYYYMM_location.tif`. */
module FileTime {
  import opened Outcome
  import opened Decimal
  import opened Paths
  import opened Dates

  /** The token at index `[1]` of the base name split on `_`; IndexError when
      the base name has no `_`. */
  function SecondToken(baseName: string): (r: Result<string>)
    ensures r.Ok? <==> UNDERSCORE in baseName
    ensures r.Ok? ==> UNDERSCORE !in r.value
    ensures r.Err? ==> r.error == IndexError(baseName)
  {
    SecondTokenExists(baseName);
    var tokens := SplitOnUnderscore(baseName);
    if |tokens| < 2 then Err(IndexError(baseName))
    else
      assert tokens[1] in tokens;
      Ok(tokens[1])
  }

  /** The date one file name stands for: base name, then second `_` token,
      then the `%Y%m` parse. */
  function ParseFileDate(path: string): (r: Result<Date>)
    ensures r.Ok? ==> ValidDate(r.value) && r.value.day == 1
  {
    match SecondToken(Basename(path))
    case Err(e) => Err(e)
    case Ok(token) => ParseYYYYMM(token)
  }

  /** The text appended to the collected list for one file name. */
  function FileDateText(path: string): (r: Result<string>)
    ensures r.Ok? <==> ParseFileDate(path).Ok?
    ensures r.Err? ==> r.error == ParseFileDate(path).error
    ensures r.Ok? ==> |r.value| == 10 && r.value[8..] == "01"
  {
    match ParseFileDate(path)
    case Err(e) => Err(e)
    case Ok(d) =>
      FormatYMDFirstOfMonth(d);
      Ok(FormatYMD(d))
  }

  /** Reading the appended text back gives the file's date. */
  lemma FileDateTextReadsBack(path: string)
    requires FileDateText(path).Ok?
    ensures ParseIsoDate(FileDateText(path).value) == ParseFileDate(path)
  {
    FormatYMDRoundTrip(ParseFileDate(path).value);
  }

  /** The per-file results, in the order of the list. */
  function FileDates(flist: seq<string>): (rs: seq<Result<Date>>)
    ensures |rs| == |flist|
    ensures forall i :: 0 <= i < |flist| ==> rs[i] == ParseFileDate(flist[i])
  {
    seq(|flist|, i requires 0 <= i < |flist| => ParseFileDate(flist[i]))
  }

  lemma FileDatesConcat(flist: seq<string>, glist: seq<string>)
    ensures FileDates(flist + glist) == FileDates(flist) + FileDates(glist)
  {
    var all := flist + glist;
    assert forall i :: 0 <= i < |all| ==> all[i] == (if i < |flist| then flist[i] else glist[i - |flist|]);
  }

  /** What the whole call returns: the dates of the files, in the order of the
      list, or the error of the first file that fails. */
  function ReadAll(flist: seq<string>): (r: Result<seq<Date>>)
    ensures r.Ok? <==> forall i :: 0 <= i < |flist| ==> ParseFileDate(flist[i]).Ok?
    ensures r.Ok? ==> |r.value| == |flist|
    ensures r.Ok? ==> forall i :: 0 <= i < |flist| ==> r.value[i] == ParseFileDate(flist[i]).value
  {
    Collect(FileDates(flist))
  }

  /** One bad file name fails the whole call, with that file's error, as long
      as every file before it parses. */
  lemma ReadAllFirstError(flist: seq<string>, i: nat)
    requires i < |flist|
    requires forall j :: 0 <= j < i ==> ParseFileDate(flist[j]).Ok?
    requires ParseFileDate(flist[i]).Err?
    ensures ReadAll(flist) == Err(ParseFileDate(flist[i]).error)
  {
    CollectFirstError(FileDates(flist), i);
  }

  /** Each collected text read back as a date. */
  function TextDates(texts: seq<string>): (rs: seq<Result<Date>>)
    ensures |rs| == |texts|
    ensures forall i :: 0 <= i < |texts| ==> rs[i] == ParseIsoDate(texts[i])
  {
    seq(|texts|, i requires 0 <= i < |texts| => ParseIsoDate(texts[i]))
  }

  /** The date index built from the collected texts, in their order, the first
      unreadable text being a ValueError. */
  function DatetimeIndex(texts: seq<string>): (r: Result<seq<Date>>)
    ensures r.Ok? ==> |r.value| == |texts|
    ensures r.Ok? ==> forall i :: 0 <= i < |texts| ==> Ok(r.value[i]) == ParseIsoDate(texts[i])
  {
    Collect(TextDates(texts))
  }

  /** The per-file chain, one step at a time, as the loop of ReadFileTime takes it. */
  lemma FileDateSteps(path: string)
    ensures var token := SecondToken(Basename(path));
      && (token.Err? ==> ParseFileDate(path) == Err(token.error))
      && (token.Ok? ==> ParseFileDate(path) == ParseYYYYMM(token.value))
      && (token.Ok? && ParseYYYYMM(token.value).Ok? ==>
            FileDateText(path) == Ok(FormatYMD(ParseYYYYMM(token.value).value)))
  {
  }

  /** Appending the text of the next file keeps one text per file so far. */
  lemma CollectedTextsExtend(flist: seq<string>, collect: seq<string>, text: string)
    requires |collect| < |flist|
    requires forall j :: 0 <= j < |collect| ==> FileDateText(flist[j]) == Ok(collect[j])
    requires FileDateText(flist[|collect|]) == Ok(text)
    ensures forall j :: 0 <= j < |collect| + 1 ==> FileDateText(flist[j]) == Ok((collect + [text])[j])
  {
  }

  /** The index built from the texts collected for a list of file names is
      what ReadAll promises for that list. */
  lemma ReadFileTimeResult(flist: seq<string>, collect: seq<string>)
    requires |collect| == |flist|
    requires forall j :: 0 <= j < |flist| ==> FileDateText(flist[j]) == Ok(collect[j])
    ensures DatetimeIndex(collect) == ReadAll(flist)
  {
    var read, parsed := TextDates(collect), FileDates(flist);
    forall j | 0 <= j < |flist| ensures read[j] == parsed[j] {
      FileDateTextReadsBack(flist[j]);
    }
    assert forall j :: 0 <= j < |flist| ==> read[j] == parsed[j];
    assert read == parsed;
  }

  /** `readfiletime(flist)`: for each file, in order, take the base name, split
      it on `_`, parse token `[1]` as `%Y%m`, append its `%Y-%m-%d` rendering;
      then build the date index from the collected texts. */
  method ReadFileTime(flist: seq<string>) returns (r: Result<seq<Date>>)
    ensures r == ReadAll(flist)
  {
    var collect: seq<string> := [];
    for i := 0 to |flist|
      invariant |collect| == i
      invariant forall j :: 0 <= j < i ==> FileDateText(flist[j]) == Ok(collect[j])
    {
      var token := SecondToken(Basename(flist[i]));
      FileDateSteps(flist[i]);
      if token.Err? {
        ReadAllFirstError(flist, i);
        return Err(token.error);
      }
      var parsed := ParseYYYYMM(token.value);
      if parsed.Err? {
        ReadAllFirstError(flist, i);
        return Err(parsed.error);
      }
      var text := FormatYMD(parsed.value);
      CollectedTextsExtend(flist, collect, text);
      collect := collect + [text];
    }
    r := DatetimeIndex(collect);
    ReadFileTimeResult(flist, collect);
  }

  /** Only the base name matters: any leading directory, underscores and all,
      leaves the date (or the error) unchanged. */
  lemma ParseFileDateUnderDirectory(dir: string, path: string)
    ensures ParseFileDate(dir + [SEP] + path) == ParseFileDate(path)
    ensures FileDateText(dir + [SEP] + path) == FileDateText(path)
  {
    BasenameUnderDirectory(dir, path);
  }

  /** Lists whose file names agree on their base names give the same result. */
  lemma ReadAllSameBaseNames(flist: seq<string>, glist: seq<string>)
    requires |flist| == |glist|
    requires forall i :: 0 <= i < |flist| ==> Basename(flist[i]) == Basename(glist[i])
    ensures ReadAll(flist) == ReadAll(glist)
  {
    assert FileDates(flist) == FileDates(glist);
  }

  /** The date comes from the second token alone: the variable prefix before
      it, the location and extension after it, and the directory are all
      irrelevant. */
  lemma ParseFileDateSecondTokenOnly(dir: string, prefix: string, token: string, tail: string)
    requires dir == [] || dir[|dir| - 1] == SEP
    requires SEP !in prefix && SEP !in token && SEP !in tail
    requires UNDERSCORE !in prefix && UNDERSCORE !in token
    requires tail == [] || tail[0] == UNDERSCORE
    ensures ParseFileDate(dir + prefix + [UNDERSCORE] + token + tail) == ParseYYYYMM(token)
  {
    var name := prefix + [UNDERSCORE] + token + tail;
    assert dir + prefix + [UNDERSCORE] + token + tail == dir + name;
    BasenameOfName(dir, name);
    SplitSecondToken(prefix, token, tail);
  }

  /** A name of the documented shape `VAR_YYYYMM_location.tif` yields the
      first of month MM of year YYYY, rendered `YYYY-MM-01`. */
  lemma ParseFileDateDocumentedShape(dir: string, prefix: string, year: int, month: int, tail: string)
    requires dir == [] || dir[|dir| - 1] == SEP
    requires SEP !in prefix && SEP !in tail
    requires UNDERSCORE !in prefix
    requires tail == [] || tail[0] == UNDERSCORE
    requires MIN_YEAR <= year <= MAX_YEAR && 1 <= month <= 12
    ensures ParseFileDate(dir + prefix + [UNDERSCORE] + Pad(year, 4) + Pad(month, 2) + tail)
         == Ok(Date(year, month, 1))
    ensures FileDateText(dir + prefix + [UNDERSCORE] + Pad(year, 4) + Pad(month, 2) + tail)
         == Ok(Pad(year, 4) + "-" + Pad(month, 2) + "-01")
  {
    var token := Pad(year, 4) + Pad(month, 2);
    NonDigitAbsent(token, SEP);
    NonDigitAbsent(token, UNDERSCORE);
    assert dir + prefix + [UNDERSCORE] + Pad(year, 4) + Pad(month, 2) + tail
        == dir + prefix + [UNDERSCORE] + token + tail;
    ParseFileDateSecondTokenOnly(dir, prefix, token, tail);
    ParseYYYYMMAcceptsTwoDigitMonth(year, month);
    FormatYMDOfFirst(year, month);
  }

  /** The example in the script's own documentation. */
  lemma DocumentedExample(name: string)
    requires name == "AET_198010_ok.tif"
    ensures ParseFileDate(name) == Ok(Date(1980, 10, 1))
    ensures FileDateText(name) == Ok("1980-10-01")
  {
    ExampleDigits();
    assert name == [] + "AET" + [UNDERSCORE] + Pad(1980, 4) + Pad(10, 2) + "_ok.tif";
    ParseFileDateDocumentedShape([], "AET", 1980, 10, "_ok.tif");
    ExampleText();
  }

  lemma ExampleText()
    ensures FormatYMD(Date(1980, 10, 1)) == "1980-10-01"
  {
  }

  lemma ExampleDigits()
    ensures Pad(1980, 4) == "1980" && Pad(10, 2) == "10"
  {
    assert Pad(1, 1) == "1";
    assert Pad(10, 2) == "10";
    assert Pad(19, 2) == "19";
    assert Pad(198, 3) == "198";
  }

  /** A base name without `_` has no token `[1]`: exactly then the call raises IndexError. */
  lemma ParseFileDateNoUnderscore(path: string)
    ensures ParseFileDate(path) == Err(IndexError(Basename(path))) <==> UNDERSCORE !in Basename(path)
  {
  }

  /** A second token that is not a year-month fails the file with ValueError,
      whatever the rest of the name is. */
  lemma ParseFileDateBadToken(dir: string, prefix: string, token: string, tail: string)
    requires dir == [] || dir[|dir| - 1] == SEP
    requires SEP !in prefix && SEP !in token && SEP !in tail
    requires UNDERSCORE !in prefix && UNDERSCORE !in token
    requires tail == [] || tail[0] == UNDERSCORE
    requires ParseYYYYMM(token).Err?
    ensures ParseFileDate(dir + prefix + [UNDERSCORE] + token + tail) == Err(ValueError(token))
  {
    ParseFileDateSecondTokenOnly(dir, prefix, token, tail);
  }

  /** The dates come out in the order of the list, never re-sorted: reading
      two lists one after the other is reading their concatenation. */
  lemma ReadAllConcat(flist: seq<string>, glist: seq<string>)
    requires ReadAll(flist).Ok? && ReadAll(glist).Ok?
    ensures ReadAll(flist + glist) == Ok(ReadAll(flist).value + ReadAll(glist).value)
  {
    FileDatesConcat(flist, glist);
    CollectConcat(FileDates(flist), FileDates(glist));
  }

  /** The call takes one file at a time: a bad first file fails it with that
      file's error; otherwise the first date goes in front of the dates of
      the rest, or the rest's error is reported. */
  lemma ReadAllCons(path: string, rest: seq<string>)
    ensures ParseFileDate(path).Err? ==> ReadAll([path] + rest) == Err(ParseFileDate(path).error)
    ensures ParseFileDate(path).Ok? && ReadAll(rest).Err? ==> ReadAll([path] + rest) == Err(ReadAll(rest).error)
    ensures ParseFileDate(path).Ok? && ReadAll(rest).Ok? ==>
      ReadAll([path] + rest) == Ok([ParseFileDate(path).value] + ReadAll(rest).value)
  {
    FileDatesConcat([path], rest);
    assert FileDates([path]) == [ParseFileDate(path)];
    CollectCons(ParseFileDate(path), FileDates(rest));
  }

  /** An empty list of files gives an empty date index. */
  lemma ReadAllEmpty()
    ensures ReadAll([]) == Ok([])
  {
  }
}
