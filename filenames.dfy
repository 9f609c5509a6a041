/**
 * Metadata read off a source file name by fixed token positions
 * (`[TestYear]_StudentOutcomeLevel_Yr[Level]_[Campus].csv`).
 */
module FileNames {
  import opened Wrappers
  import opened Tokens

  datatype FileMeta = FileMeta(testYear: string, yearLevel: string, campus: string)

  /** Campus is `split('_')[3]`, Test Year `split('_')[0]` and Year Level
      `split('_')[2]`, each cut at its first `.`; a name with fewer than four
      `_`-pieces raises IndexError on the first of these, the Campus lookup. */
  function ParseFileName(name: string): (r: Result<FileMeta, Exception>)
    ensures r.Err? <==> Count(name, '_') < 3
    ensures r.Err? ==> r.error == IndexError
    ensures r.Ok? ==> '.' !in r.value.testYear && '.' !in r.value.yearLevel && '.' !in r.value.campus
    ensures r.Ok? ==> '_' !in r.value.testYear && '_' !in r.value.yearLevel && '_' !in r.value.campus
    ensures r.Ok? ==> |r.value.testYear| <= |name| && r.value.testYear == name[..|r.value.testYear|]
  {
    var tokens := Split(name, '_');
    SplitPieces(name, '_');
    SplitHead(name, '_');
    if |tokens| < 4 then Err(IndexError)
    else
      var campus := FirstToken(tokens[3], '.');
      var testYear := FirstToken(tokens[0], '.');
      var yearLevel := FirstToken(tokens[2], '.');
      assert '_' !in yearLevel by { assert yearLevel == tokens[2][..|yearLevel|]; }
      assert '_' !in campus by { assert campus == tokens[3][..|campus|]; }
      assert '_' !in testYear by { assert testYear == tokens[0][..|testYear|]; }
      Ok(FileMeta(testYear, yearLevel, campus))
  }

  /** The `.csv` filter on directory entries (line 81). */
  predicate IsCsv(name: string) {
    |name| >= 4 && name[|name| - 4..] == ".csv"
  }

  lemma SplitTwoParts(c: string, d: string)
    requires '_' !in c && '_' !in d
    ensures Split(c + ['_'] + d, '_') == [c, d]
  {
    SplitNoSep(d, '_');
    SplitCons(c, '_', d);
  }

  lemma SplitThreeParts(b: string, c: string, d: string)
    requires '_' !in b && '_' !in c && '_' !in d
    ensures Split(b + ['_'] + (c + ['_'] + d), '_') == [b, c, d]
  {
    SplitTwoParts(c, d);
    SplitCons(b, '_', c + ['_'] + d);
  }

  /** Four underscore-free parts joined by `_` split back into those parts. */
  lemma SplitFourParts(a: string, b: string, c: string, d: string)
    requires '_' !in a && '_' !in b && '_' !in c && '_' !in d
    ensures Split(a + ['_'] + b + ['_'] + c + ['_'] + d, '_') == [a, b, c, d]
  {
    var bcd := b + ['_'] + (c + ['_'] + d);
    SplitThreeParts(b, c, d);
    SplitCons(a, '_', bcd);
    assert a + ['_'] + b + ['_'] + c + ['_'] + d == a + ['_'] + bcd;
  }

  /** Splitting a piece `d` followed by nothing or by further `_`-pieces
      puts `d` first. */
  lemma SplitLastPiece(d: string, rest: string)
    requires '_' !in d && (rest == [] || rest[0] == '_')
    ensures Split(d + rest, '_') == [d] + (if rest == [] then [] else Split(rest[1..], '_'))
  {
    if rest == [] {
      assert d + rest == d;
      SplitNoSep(d, '_');
    } else {
      assert d + rest == d + ['_'] + rest[1..];
      SplitCons(d, '_', rest[1..]);
    }
  }

  /** A name of at least four `_`-pieces parses to the first, third and
      fourth pieces, each cut at its first `.`. */
  lemma ParseFromPieces(name: string)
    requires |Split(name, '_')| >= 4
    ensures ParseFileName(name) == Ok(FileMeta(FirstToken(Split(name, '_')[0], '.'),
                                               FirstToken(Split(name, '_')[2], '.'),
                                               FirstToken(Split(name, '_')[3], '.')))
  {
  }

  /** The file name regrouped piece by piece from the right. */
  lemma NameShape(a: string, b: string, c: string, d: string, rest: string)
    ensures a + "_" + b + "_" + c + "_" + d + rest == a + ['_'] + (b + ['_'] + (c + ['_'] + (d + rest)))
  {
  }

  /** The first four of four pieces followed by more. */
  lemma FourHeads(a: string, b: string, c: string, d: string, tail: seq<string>)
    ensures |[a] + ([b] + ([c] + ([d] + tail)))| >= 4
    ensures ([a] + ([b] + ([c] + ([d] + tail))))[..4] == [a, b, c, d]
  {
  }

  /** Four underscore-free pieces, then nothing or further `_`-pieces. */
  lemma SplitLeadingPieces(a: string, b: string, c: string, d: string, rest: string)
    requires '_' !in a && '_' !in b && '_' !in c && '_' !in d
    requires rest == [] || rest[0] == '_'
    ensures |Split(a + "_" + b + "_" + c + "_" + d + rest, '_')| >= 4
    ensures Split(a + "_" + b + "_" + c + "_" + d + rest, '_')[..4] == [a, b, c, d]
  {
    var dr := d + rest;
    SplitLastPiece(d, rest);
    var tail := if rest == [] then [] else Split(rest[1..], '_');
    var cdr := c + ['_'] + dr;
    SplitCons(c, '_', dr);
    var bcdr := b + ['_'] + cdr;
    SplitCons(b, '_', cdr);
    SplitCons(a, '_', bcdr);
    NameShape(a, b, c, d, rest);
    FourHeads(a, b, c, d, tail);
  }

  /** The positions `ParseFileName` reads: Test Year from the first piece,
      Year Level from the third and Campus from the fourth, whatever the
      second piece holds and whatever follows the fourth. */
  lemma ParsePositions(a: string, b: string, c: string, d: string, rest: string)
    requires '_' !in a && '_' !in b && '_' !in c && '_' !in d
    requires rest == [] || rest[0] == '_'
    ensures ParseFileName(a + "_" + b + "_" + c + "_" + d + rest)
         == Ok(FileMeta(FirstToken(a, '.'), FirstToken(c, '.'), FirstToken(d, '.')))
  {
    var name := a + "_" + b + "_" + c + "_" + d + rest;
    SplitLeadingPieces(a, b, c, d, rest);
    var p := Split(name, '_');
    assert p[0] == a && p[2] == c && p[3] == d by {
      assert p[..4][0] == p[0] && p[..4][2] == p[2] && p[..4][3] == p[3];
    }
    ParseFromPieces(name);
  }

  /** The naming convention: a conforming name yields exactly its parts. */
  lemma ParseConformingName(testYear: string, level: string, campus: string)
    requires '_' !in testYear && '.' !in testYear
    requires '_' !in level && '.' !in level
    requires '_' !in campus && '.' !in campus
    ensures ParseFileName(testYear + "_StudentOutcomeLevel_Yr" + level + "_" + campus + ".csv")
         == Ok(FileMeta(testYear, "Yr" + level, campus))
  {
    var third := "Yr" + level;
    var last := campus + ".csv";
    assert '_' !in third && '_' !in last;
    assert testYear + "_StudentOutcomeLevel_Yr" + level + "_" + campus + ".csv"
        == testYear + ['_'] + "StudentOutcomeLevel" + ['_'] + third + ['_'] + last;
    SplitFourParts(testYear, "StudentOutcomeLevel", third, last);
    SplitNoSep(testYear, '.');
    SplitNoSep(third, '.');
    SplitCons(campus, '.', "csv");
    assert last == campus + "." + "csv";
  }

  /** The example from the naming convention. */
  lemma ExampleNameParts()
    ensures "2023" + "_StudentOutcomeLevel_Yr" + "5" + "_" + "Hills" + ".csv" == "2023_StudentOutcomeLevel_Yr5_Hills.csv"
    ensures "Yr" + "5" == "Yr5"
  {
  }

  lemma ParseExampleName(name: string)
    requires name == "2023_StudentOutcomeLevel_Yr5_Hills.csv"
    ensures ParseFileName(name) == Ok(FileMeta("2023", "Yr5", "Hills"))
  {
    ExampleNameParts();
    ParseConformingName("2023", "5", "Hills");
  }

  /** Only the token positions matter: a name whose parts are in the wrong
      order is accepted and yields the wrong metadata, without any error. */
  lemma SwappedNameParts()
    ensures "Hills" + "_StudentOutcomeLevel_Yr" + "5" + "_" + "2023" + ".csv" == "Hills_StudentOutcomeLevel_Yr5_2023.csv"
    ensures "Yr" + "5" == "Yr5"
  {
  }

  lemma ParseSwappedName(name: string)
    requires name == "Hills_StudentOutcomeLevel_Yr5_2023.csv"
    ensures ParseFileName(name) == Ok(FileMeta("Hills", "Yr5", "2023"))
  {
    SwappedNameParts();
    ParseConformingName("Hills", "5", "2023");
  }
}
