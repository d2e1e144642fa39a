/// `tcg_card_parsers.CardParsers`: the three exports (Scryfall spreadsheet,
/// Manabox, TCGplayer collection) turned into lists of cards. A file is a
/// list of rows already split into cells; a row too short for a cell the
/// parser reads raises `IndexError` and ends the parse.
module TcgCardParsers {
  import opened Results
  import opened Text
  import opened Folds
  import opened TcgCard

  type Row = seq<string>

  /** What a row gives: a crash, nothing (a skipped row) or a card. */
  type RowResult = Result<Option<Card>, ()>

  const Game := "Magic"

  /** The Scryfall type/subtype separator, `' — '` with an em dash. */
  const TypeSubtypeSep := " \U{2014} "

  /** The Scryfall type field: the parts before and after the first
      separator, or the whole field and an empty subtype. */
  function TypeAndSubtype(field: string): (r: (string, string))
    ensures !Contains(field, TypeSubtypeSep) ==> r == (field, "")
    ensures Contains(field, TypeSubtypeSep) ==>
      r.0 + TypeSubtypeSep <= field && !Contains(r.0, TypeSubtypeSep)
    ensures Contains(field, TypeSubtypeSep) ==>
      var rest := field[Find(field, TypeSubtypeSep) + |TypeSubtypeSep|..];
      !Contains(r.1, TypeSubtypeSep)
      && (Contains(rest, TypeSubtypeSep) ==> r.1 + TypeSubtypeSep <= rest)
      && (!Contains(rest, TypeSubtypeSep) ==> r.1 == rest)
  {
    if Contains(field, TypeSubtypeSep) then
      var i := Find(field, TypeSubtypeSep);
      var x := Split(field, TypeSubtypeSep);
      assert x[0] == field[..i] && OccursAt(field, TypeSubtypeSep, i);
      PrefixBeforeFind(field, TypeSubtypeSep);
      SecondPart(field, TypeSubtypeSep);
      (x[0], x[1])
    else (field, "")
  }

  /** The second part of a split is the text after the first separator, up to
      the second one or to the end. */
  lemma SecondPart(s: string, sep: string)
    requires sep != [] && Contains(s, sep)
    ensures var rest := s[Find(s, sep) + |sep|..];
      var part := Split(s, sep)[1];
      !Contains(part, sep)
      && (Contains(rest, sep) ==> part + sep <= rest)
      && (!Contains(rest, sep) ==> part == rest)
  {
    var rest := s[Find(s, sep) + |sep|..];
    assert Split(s, sep)[1] == Split(rest, sep)[0];
    var j := Find(rest, sep);
    if j >= 0 {
      assert Split(rest, sep)[0] == rest[..j];
      PrefixBeforeFind(rest, sep);
      assert OccursAt(rest, sep, j);
    } else {
      assert Split(rest, sep) == [rest];
    }
  }

  /** The text before the first occurrence of `pat` does not contain it. */
  lemma PrefixBeforeFind(s: string, pat: string)
    requires pat != [] && Find(s, pat) >= 0
    ensures !Contains(s[..Find(s, pat)], pat)
  {
    var i := Find(s, pat);
    var p := s[..i];
    forall j | 0 <= j <= |p|
      ensures !OccursAt(p, pat, j)
    {
      if j + |pat| <= |p| {
        assert p[j..j + |pat|] == s[j..j + |pat|];
        assert j < i;
        assert !OccursAt(s, pat, j);
      }
    }
  }

  /** One row of `parse_scryfall_spreadsheet`. */
  function ScryfallRow(clean: string -> string, r: Row): (res: RowResult)
    ensures res.Failure? <==> |r| == 0 || (r[0] != "section" && |r| < 17)
    ensures res == Success(None) <==> |r| > 0 && r[0] == "section"
    ensures res.Success? && res.value.Some? ==> Normalised(res.value.value)
  {
    if |r| == 0 then Failure(())
    else if r[0] == "section" then Success(None)
    else if |r| < 17 then Failure(())
    else
      var finish := if Lower(Strip(r[11])) == "nonfoil" then "" else Strip(r[11]);
      var ts := TypeAndSubtype(Strip(clean(r[4])));
      Success(Some(New(clean, Card(Game, r[2], ts.0, ts.1, r[5], r[6], r[7], r[8], r[9], r[10],
                                   finish, "", r[15], r[16], "", ""))))
  }

  /** One row of `parse_manabox_export`: the foil column is read but the
      finish stays empty. */
  function ManaboxRow(clean: string -> string, r: Row): (res: RowResult)
    ensures res.Failure? <==> |r| == 0 || (r[0] != "BinderName" && |r| < 16)
    ensures res == Success(None) <==> |r| > 0 && r[0] == "BinderName"
    ensures res.Success? && res.value.Some? ==> Normalised(res.value.value)
  {
    if |r| == 0 then Failure(())
    else if r[0] == "BinderName" then Success(None)
    else if |r| < 16 then Failure(())
    else
      Success(Some(New(clean, Card(Game, r[2], "", "", r[4], r[3], r[5], r[15], r[7], "",
                                   "", "", "", r[10], "", ""))))
  }

  /** The art-type markers of the TCGplayer name, in the order they are tested. */
  const ArtMarkers: seq<(string, string)> := [
    ("(halo foil)", "Halo Foil"),
    ("(gilded foil)", "Gilded Foil"),
    ("(foil etched)", "Foil Etched"),
    ("(extended art)", "Extended Art"),
    ("(borderless)", "Borderless"),
    ("(jp alternate art)", "JP Alternate Art")]

  /** The art type named by the last of the first `k` markers that occurs in
      `lower`, or empty. */
  function LastMarker(lower: string, k: nat): (art: string)
    requires k <= |ArtMarkers|
  {
    if k == 0 then ""
    else if Contains(lower, ArtMarkers[k - 1].0) then ArtMarkers[k - 1].1
    else LastMarker(lower, k - 1)
  }

  function ArtTypeOf(lower: string): string {
    LastMarker(lower, |ArtMarkers|)
  }

  /** `name[0: name.find('- [')].strip()`: the name before the foil mark. */
  function FoilCut(name: string): (r: string)
    ensures |r| <= |name|
    ensures Find(name, "- [") >= 0 ==> TrimmedWindow(name, Find(name, "- ["), r)
  {
    var i := Find(name, "- [");
    CutShortens(name, i);
    CutWindow(name, "- [");
    Strip(SliceTo(name, i))
  }

  /** `name[0: name.find('(')].strip()`: the name before the art type. */
  function ArtCut(n: string): (r: string)
    ensures |r| <= |n|
    ensures '(' !in r
    ensures Find(n, "(") >= 0 ==> TrimmedWindow(n, Find(n, "("), r)
  {
    var i := Find(n, "(");
    CutShortens(n, i);
    CutBeforeParen(n);
    CutWindow(n, "(");
    Strip(SliceTo(n, i))
  }

  /** The name cut: before `- [` when the card is foil, then before `(` when
      it has an art type, trimmed each time. A missing mark makes `find`
      return -1, and the slice then drops the last character. */
  function CutName(name: string, foil: bool, artType: string): (r: string)
    ensures !foil && artType == [] ==> r == name
    ensures artType != [] ==> '(' !in r
    ensures (foil || artType != []) && r != [] ==> !IsSpace(r[0]) && !IsSpace(r[|r| - 1])
    ensures |r| <= |name|
    ensures foil && artType == [] && Find(name, "- [") >= 0 ==> TrimmedWindow(name, Find(name, "- ["), r)
    ensures !foil && artType != [] && Find(name, "(") >= 0 ==> TrimmedWindow(name, Find(name, "("), r)
    ensures foil && artType != [] ==>
              var n := FoilCut(name);
              Find(n, "(") >= 0 ==> TrimmedWindow(n, Find(n, "("), r)
  {
    var n := if foil then FoilCut(name) else name;
    if artType != [] then ArtCut(n) else n
  }

  /** The cut before a found mark is the window `TrimmedWindow` describes. */
  lemma CutWindow(s: string, mark: string)
    ensures var i := Find(s, mark);
      i >= 0 ==> TrimmedWindow(s, i, Strip(SliceTo(s, i)))
  {
    var i := Find(s, mark);
    if i >= 0 {
      StripPrefixWindow(s, i);
    }
  }

  /** A slice stripped is no longer than the text it was cut from. */
  lemma CutShortens(s: string, end: int)
    ensures |Strip(SliceTo(s, end))| <= |s|
  {
    StripSlice(SliceTo(s, end));
  }

  /** The cut before the first '(' holds none. */
  lemma CutBeforeParen(n: string)
    ensures '(' !in Strip(SliceTo(n, Find(n, "(")))
  {
    assert "(" == ['('];
    SliceToFirst(n, '(');
    StripKeepsAbsent(SliceTo(n, Find(n, "(")), '(');
  }

  /** One row of `parse_tcg_player_collection`: no row is skipped. */
  function TcgPlayerRow(clean: string -> string, r: Row): (res: RowResult)
    ensures res.Failure? <==> |r| < 4
    ensures res.Success? ==> res.value.Some? && Normalised(res.value.value)
  {
    if |r| < 4 then Failure(())
    else
      var text := Strip(clean(r[1]));
      var lower := Lower(text);
      var art := ArtTypeOf(lower);
      var foil := Contains(lower, "[foil]");
      var name := CutName(text, foil, art);
      Success(Some(New(clean, Card(Game, name, "", "", Strip(r[3]), "", "", "", "", "",
                                   if foil then "foil" else "", art, "", "", "", ""))))
  }

  function Scryfall(clean: string -> string): Row -> RowResult {
    r => ScryfallRow(clean, r)
  }

  function Manabox(clean: string -> string): Row -> RowResult {
    r => ManaboxRow(clean, r)
  }

  function TcgPlayer(clean: string -> string): Row -> RowResult {
    r => TcgPlayerRow(clean, r)
  }

  /** The row loop shared by the three parsers: append each row's card,
      stop at the first row that crashes. */
  method ParseRows(rows: seq<Row>, g: Row -> RowResult) returns (r: Result<seq<Card>, nat>)
    ensures r == Gather(rows, g)
  {
    var cards: seq<Card> := [];
    var i := 0;
    assert rows[..0] == [];
    while i < |rows|
      invariant 0 <= i <= |rows|
      invariant Gather(rows[..i], g) == Success(cards)
    {
      GatherStep(rows, i, g, cards);
      var c := g(rows[i]);
      if c.Failure? {
        GatherFailureStays(rows, i + 1, g);
        return Failure(i);
      }
      if c.value.Some? {
        cards := cards + [c.value.value];
      }
      i := i + 1;
    }
    assert rows[..i] == rows;
    r := Success(cards);
  }

  method ParseScryfallSpreadsheet(rows: seq<Row>, clean: string -> string) returns (r: Result<seq<Card>, nat>)
    ensures r == Gather(rows, Scryfall(clean))
  {
    r := ParseRows(rows, Scryfall(clean));
  }

  method ParseManaboxExport(rows: seq<Row>, clean: string -> string) returns (r: Result<seq<Card>, nat>)
    ensures r == Gather(rows, Manabox(clean))
  {
    r := ParseRows(rows, Manabox(clean));
  }

  /** The art type of a TCGplayer name, set by six tests in a row. */
  method TcgPlayerArtType(lower: string) returns (artType: string)
    ensures artType == ArtTypeOf(lower)
  {
    artType := "";
    assert artType == LastMarker(lower, 0);
    if Contains(lower, "(halo foil)") {
      artType := "Halo Foil";
    }
    assert artType == LastMarker(lower, 1);
    if Contains(lower, "(gilded foil)") {
      artType := "Gilded Foil";
    }
    assert artType == LastMarker(lower, 2);
    if Contains(lower, "(foil etched)") {
      artType := "Foil Etched";
    }
    assert artType == LastMarker(lower, 3);
    if Contains(lower, "(extended art)") {
      artType := "Extended Art";
    }
    assert artType == LastMarker(lower, 4);
    if Contains(lower, "(borderless)") {
      artType := "Borderless";
    }
    assert artType == LastMarker(lower, 5);
    if Contains(lower, "(jp alternate art)") {
      artType := "JP Alternate Art";
    }
  }

  /** One TCGplayer row, with `finish`, `art_type` and `name` reassigned
      step by step. */
  method TcgPlayerCard(clean: string -> string, r: Row) returns (c: RowResult)
    ensures c == TcgPlayerRow(clean, r)
  {
    if |r| < 4 {
      return Failure(());
    }
    var nameArtTypeFinish := Strip(clean(r[1]));
    var gameSet := Strip(r[3]);
    var finish := "";
    var lower := Lower(nameArtTypeFinish);
    var artType := TcgPlayerArtType(lower);
    if Contains(lower, "[foil]") {
      finish := "foil";
    }
    var name := nameArtTypeFinish;
    if finish != [] {
      name := Strip(SliceTo(name, Find(name, "- [")));
    }
    if artType != [] {
      name := Strip(SliceTo(name, Find(name, "(")));
    }
    c := Success(Some(New(clean, Card(Game, name, "", "", gameSet, "", "", "", "", "",
                                      finish, artType, "", "", "", ""))));
  }

  method ParseTcgPlayerCollection(rows: seq<Row>, clean: string -> string) returns (r: Result<seq<Card>, nat>)
    ensures r == Gather(rows, TcgPlayer(clean))
  {
    var cards: seq<Card> := [];
    var i := 0;
    assert rows[..0] == [];
    while i < |rows|
      invariant 0 <= i <= |rows|
      invariant Gather(rows[..i], TcgPlayer(clean)) == Success(cards)
    {
      GatherStep(rows, i, TcgPlayer(clean), cards);
      var c := TcgPlayerCard(clean, rows[i]);
      if c.Failure? {
        GatherFailureStays(rows, i + 1, TcgPlayer(clean));
        return Failure(i);
      }
      cards := cards + [c.value.value];
      i := i + 1;
    }
    assert rows[..i] == rows;
    r := Success(cards);
  }

  // Properties of the parsers.

  /** Each parser fails exactly at its first row that is too short, and
      otherwise yields, in row order, one card for every row it does not
      skip. */
  lemma ParsersYieldInRowOrder(rows: seq<Row>, g: Row -> RowResult)
    ensures Gather(rows, g).Failure? <==> exists k :: 0 <= k < |rows| && g(rows[k]).Failure?
    ensures Gather(rows, g).Success? ==>
      Gather(rows, g).value == Collect(rows, Yield(g)) && |Gather(rows, g).value| <= |rows|
  {
    GatherIsCollect(rows, g);
    CollectLength(rows, Yield(g));
  }

  /** Scryfall rows headed `section` are skipped; other rows need 17 cells.
      A finish of `nonfoil` in any case becomes empty. */
  lemma ScryfallRows(clean: string -> string, r: Row)
    ensures |r| > 0 && r[0] == "section" ==> ScryfallRow(clean, r) == Success(None)
    ensures ScryfallRow(clean, r).Failure? <==> |r| == 0 || (r[0] != "section" && |r| < 17)
    ensures ScryfallRow(clean, r).Success? && ScryfallRow(clean, r).value.Some? ==>
      var c := ScryfallRow(clean, r).value.value;
      (Lower(Strip(r[11])) == "nonfoil" ==> c.finish == Lower(clean("")))
      && (Lower(Strip(r[11])) != "nonfoil" ==> c.finish == Lower(clean(Strip(r[11]))))
      && c.game == clean(Game) && c.name == clean(r[2]) && c.setCode == Upper(clean(r[6]))
  {
  }

  /** Manabox rows headed `BinderName` are skipped, and the finish does not
      depend on the foil column. */
  lemma ManaboxFinishIgnoresFoil(clean: string -> string, r: Row, foil: string)
    requires |r| >= 16 && r[0] != "BinderName"
    ensures ManaboxRow(clean, r) == ManaboxRow(clean, r[6 := foil])
    ensures ManaboxRow(clean, r).value.value.finish == Lower(clean(""))
    ensures ManaboxRow(clean, ["BinderName"] + r[1..]) == Success(None)
  {
  }

  /** The art type is the one named by the last marker in the list that
      occurs, or empty when none occurs. */
  lemma {:induction false} LastMarkerWins(lower: string, k: nat)
    requires k <= |ArtMarkers|
    ensures LastMarker(lower, k) == "" <==> forall i :: 0 <= i < k ==> !Contains(lower, ArtMarkers[i].0)
    ensures LastMarker(lower, k) != "" ==>
      exists i :: 0 <= i < k && Contains(lower, ArtMarkers[i].0) && LastMarker(lower, k) == ArtMarkers[i].1
        && forall j :: i < j < k ==> !Contains(lower, ArtMarkers[j].0)
  {
    if k > 0 {
      LastMarkerWins(lower, k - 1);
      ArtNamesNonEmpty(k - 1);
      var m := ArtMarkers[k - 1];
      if Contains(lower, m.0) {
        assert LastMarker(lower, k) == m.1 != "";
      } else {
        assert LastMarker(lower, k) == LastMarker(lower, k - 1);
      }
    }
  }

  lemma ArtNamesNonEmpty(i: nat)
    requires i < |ArtMarkers|
    ensures ArtMarkers[i].1 != ""
  {
  }

  /** A `[foil]` marker sets the finish to `foil`; the name is cut before
      `- [` for a foil and before `(` for an art type. */
  lemma TcgPlayerFoil(clean: string -> string, r: Row)
    requires |r| >= 4
    ensures var text := Strip(clean(r[1]));
      var c := TcgPlayerRow(clean, r).value.value;
      c.finish == Lower(clean(if Contains(Lower(text), "[foil]") then "foil" else ""))
      && c.name == clean(CutName(text, Contains(Lower(text), "[foil]"), ArtTypeOf(Lower(text))))
  {
  }

  /** A foil name without `- [` loses its last character. */
  lemma FoilWithoutDashLosesLastChar(name: string)
    requires name != [] && !Contains(name, "- [")
    ensures CutName(name, true, "") == Strip(name[..|name| - 1])
  {
    assert Find(name, "- [") == -1;
    assert SliceTo(name, -1) == name[..|name| - 1];
  }
}
