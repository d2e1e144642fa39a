/// `tcg_card.Card`: a trading card whose fields are cleaned and case-folded
/// once by the constructor, and whose identity is a `::`-joined key.
module TcgCard {
  import opened Results
  import opened Text

  /** The comparator constants of `Card`; each picks the fields of the key. */
  datatype Comparator =
    | Name
    | NameSet
    | NameSetFinish
    | NameSetFinishArt
    | NameSetArt
    | ScryfallId
    | NameSetcodeNumber

  /** `Card.__comparator`, fixed when the class is created. */
  const ClassComparator := NameSetcodeNumber

  /** `set_comparator(comparator)` binds a local variable of the function
      (outside the class, so no name mangling reaches `Card`): the comparator
      the class uses afterwards is the one it had before. */
  function SetComparator(current: Comparator, requested: Comparator): (after: Comparator)
    ensures after == current
  {
    current
  }

  datatype Card = Card(
    game: string, name: string, cardType: string, cardSubtype: string,
    gameSet: string, setCode: string, cardNumber: string, lang: string,
    rarity: string, artist: string, finish: string, artType: string,
    uri: string, scryfallId: string, releaseDate: string, illustrationId: string)

  predicate NoLowerLetter(s: string) {
    forall i :: 0 <= i < |s| ==> !('a' <= s[i] <= 'z')
  }

  predicate NoUpperLetter(s: string) {
    forall i :: 0 <= i < |s| ==> !('A' <= s[i] <= 'Z')
  }

  /** The case conventions every constructed card meets. */
  predicate Normalised(c: Card) {
    NoLowerLetter(c.setCode)
    && NoUpperLetter(c.lang) && NoUpperLetter(c.rarity) && NoUpperLetter(c.finish)
    && NoUpperLetter(c.artType) && NoUpperLetter(c.uri) && NoUpperLetter(c.scryfallId)
    && NoUpperLetter(c.releaseDate)
  }

  /** `Card(...)`: the arguments, as passed, are the fields of `raw`; every
      one goes through `clean` (`util.clean_str`, which is not part of this
      model), the set code is upper-cased and seven fields are lower-cased. */
  function New(clean: string -> string, raw: Card): (c: Card)
    ensures Normalised(c)
    ensures c.game == clean(raw.game) && c.name == clean(raw.name)
      && c.cardType == clean(raw.cardType) && c.cardSubtype == clean(raw.cardSubtype)
      && c.gameSet == clean(raw.gameSet) && c.cardNumber == clean(raw.cardNumber)
      && c.artist == clean(raw.artist) && c.illustrationId == clean(raw.illustrationId)
    ensures c.setCode == Upper(clean(raw.setCode))
    ensures c.lang == Lower(clean(raw.lang)) && c.rarity == Lower(clean(raw.rarity))
      && c.finish == Lower(clean(raw.finish)) && c.artType == Lower(clean(raw.artType))
      && c.uri == Lower(clean(raw.uri)) && c.scryfallId == Lower(clean(raw.scryfallId))
      && c.releaseDate == Lower(clean(raw.releaseDate))
  {
    Card(clean(raw.game), clean(raw.name), clean(raw.cardType), clean(raw.cardSubtype),
         clean(raw.gameSet), Upper(clean(raw.setCode)), clean(raw.cardNumber), Lower(clean(raw.lang)),
         Lower(clean(raw.rarity)), clean(raw.artist), Lower(clean(raw.finish)), Lower(clean(raw.artType)),
         Lower(clean(raw.uri)), Lower(clean(raw.scryfallId)), Lower(clean(raw.releaseDate)),
         clean(raw.illustrationId))
  }

  /** `__repr__` under comparator `cmp`: the class name, then the fields the
      comparator picks, joined by `::`. */
  function Repr(c: Card, cmp: Comparator): (r: string)
    ensures "Card::" + Lower(c.game) + "::" <= r
  {
    var g := "Card::" + Lower(c.game) + "::";
    match cmp
    case Name => g + Lower(c.name)
    case NameSet => g + Lower(c.name) + "::" + Lower(c.gameSet)
    case NameSetArt => g + Lower(c.name) + "::" + Lower(c.gameSet) + "::" + Lower(c.artType)
    case NameSetFinish => g + Lower(c.name) + "::" + Lower(c.gameSet) + "::" + c.finish
    case NameSetFinishArt =>
      g + Lower(c.name) + "::" + Lower(c.gameSet) + "::" + Lower(c.finish) + "::" + Lower(c.artType)
    case ScryfallId => g + Lower(c.scryfallId)
    case NameSetcodeNumber => g + Lower(c.name) + "::" + Upper(c.setCode) + "::" + Lower(c.cardNumber)
  }

  /** The identity key: `__repr__` under the class's comparator. */
  function Key(c: Card): string {
    Repr(c, ClassComparator)
  }

  /** `__eq__`: `other` is `None` when it is not a `Card`. */
  predicate Equals(c: Card, other: Option<Card>)
    ensures other == Some(c) ==> Equals(c, other)
    ensures other.None? ==> !Equals(c, other)
  {
    other.Some? && Key(c) == Key(other.value)
  }

  /** `__ne__`. */
  predicate NotEquals(c: Card, other: Option<Card>)
    ensures other == Some(c) ==> !NotEquals(c, other)
    ensures other.None? ==> NotEquals(c, other)
  {
    !Equals(c, other)
  }

  /** `__hash__`, for Python's string hash `h`. */
  function Hash(c: Card, h: string -> int): int {
    h(Key(c))
  }

  /** `__lt__`: by name and set, whatever the comparator. */
  predicate Less(a: Card, b: Card)
    ensures a.name == b.name && a.gameSet == b.gameSet ==> !Less(a, b)
  {
    LexLessIrreflexive(a.name + "::" + a.gameSet);
    LexLess(a.name + "::" + a.gameSet, b.name + "::" + b.gameSet)
  }

  function Bracketed(s: string): string {
    if s == [] then [] else " [" + s + "]"
  }

  function Base(c: Card): string {
    c.name + " (" + c.gameSet + ") (" + c.cardNumber + ")"
  }

  /** `__str__`: name, set and number, then the finish and the art type in
      brackets when they are not empty. */
  function Str(c: Card): (s: string)
    ensures Base(c) <= s
    ensures |s| == |Base(c)| + (if c.finish == [] then 0 else |c.finish| + 3)
                             + (if c.artType == [] then 0 else |c.artType| + 3)
    ensures c.finish != [] ==> OccursAt(s, " [" + c.finish + "]", |Base(c)|)
    ensures c.artType != [] ==> s[|s| - |c.artType| - 3..] == " [" + c.artType + "]"
    ensures c.finish == [] && c.artType == [] ==> s == Base(c)
  {
    var s := Base(c) + Bracketed(c.finish) + Bracketed(c.artType);
    assert s[|Base(c)|..|Base(c)| + |Bracketed(c.finish)|] == Bracketed(c.finish);
    assert s[|s| - |Bracketed(c.artType)|..] == Bracketed(c.artType);
    s
  }

  // Properties of equality, hashing and ordering.

  /** Equality is an equivalence relation, `!=` is its negation, and a card
      never equals something that is not a card. */
  lemma EqualsIsEquivalence(a: Card, b: Card, c: Card)
    ensures Equals(a, Some(a))
    ensures Equals(a, Some(b)) ==> Equals(b, Some(a))
    ensures Equals(a, Some(b)) && Equals(b, Some(c)) ==> Equals(a, Some(c))
    ensures !Equals(a, None) && NotEquals(a, None)
    ensures NotEquals(a, Some(b)) <==> !Equals(a, Some(b))
  {
  }

  /** Equal cards hash equally, whatever the string hash. */
  lemma EqualCardsHashEqually(a: Card, b: Card, h: string -> int)
    requires Equals(a, Some(b))
    ensures Hash(a, h) == Hash(b, h)
  {
  }

  lemma LowerNoColon(s: string)
    requires ':' !in s
    ensures ':' !in Lower(s)
  {
    forall i | 0 <= i < |s|
      ensures Lower(s)[i] != ':'
    {
      assert s[i] != ':';
    }
  }

  lemma UpperNoColon(s: string)
    requires ':' !in s
    ensures ':' !in Upper(s)
  {
    forall i | 0 <= i < |s|
      ensures Upper(s)[i] != ':'
    {
      assert s[i] != ':';
    }
  }

  /** The first colon of `x + "::" + y` ends `x` when `x` has none. */
  lemma FirstColon(x: string, y: string)
    requires ':' !in x
    ensures Find(x + "::" + y, ":") == |x|
  {
    var s := x + "::" + y;
    assert OccursAt(s, ":", |x|);
    forall j | 0 <= j < |x|
      ensures !OccursAt(s, ":", j)
    {
      assert s[j] == x[j];
    }
  }

  /** A string joined on `::` splits back at its first `::` when the first
      part has no colon. */
  lemma SplitAtSeparator(x: string, y: string, x': string, y': string)
    requires ':' !in x && ':' !in x'
    requires x + "::" + y == x' + "::" + y'
    ensures x == x' && y == y'
  {
    var s := x + "::" + y;
    FirstColon(x, y);
    FirstColon(x', y');
    assert x == s[..|x|] == x';
    assert y == s[|x| + 2..] == y';
  }

  /** The default key is its four parts joined on `::` after `Card::`. */
  lemma KeyShape(c: Card)
    ensures Key(c) == "Card::" + (Lower(c.game) + "::" + (Lower(c.name) + "::" + (Upper(c.setCode) + "::" + Lower(c.cardNumber))))
  {
  }

  /** Keys built from colon-free parts agree exactly when the parts do. */
  lemma KeyPartsEqual(g: string, n: string, s: string, k: string, g': string, n': string, s': string, k': string)
    requires ':' !in g && ':' !in n && ':' !in s && ':' !in g' && ':' !in n' && ':' !in s'
    requires "Card::" + (g + "::" + (n + "::" + (s + "::" + k))) == "Card::" + (g' + "::" + (n' + "::" + (s' + "::" + k')))
    ensures g == g' && n == n' && s == s' && k == k'
  {
    var t := "Card::" + (g + "::" + (n + "::" + (s + "::" + k)));
    var t' := "Card::" + (g' + "::" + (n' + "::" + (s' + "::" + k')));
    assert t[6..] == g + "::" + (n + "::" + (s + "::" + k));
    assert t'[6..] == g' + "::" + (n' + "::" + (s' + "::" + k'));
    SplitAtSeparator(g, n + "::" + (s + "::" + k), g', n' + "::" + (s' + "::" + k'));
    SplitAtSeparator(n, s + "::" + k, n', s' + "::" + k');
    SplitAtSeparator(s, k, s', k');
  }

  /** With no colon in game, name and set code, two cards are equal exactly
      when their games, names and numbers agree ignoring case and their set
      codes agree upper-cased. */
  lemma EqualsIff(a: Card, b: Card)
    requires ':' !in a.game && ':' !in a.name && ':' !in a.setCode
    requires ':' !in b.game && ':' !in b.name && ':' !in b.setCode
    ensures Equals(a, Some(b)) <==>
      Lower(a.game) == Lower(b.game) && Lower(a.name) == Lower(b.name)
      && Upper(a.setCode) == Upper(b.setCode) && Lower(a.cardNumber) == Lower(b.cardNumber)
  {
    KeyShape(a);
    KeyShape(b);
    if Equals(a, Some(b)) {
      LowerNoColon(a.game); LowerNoColon(a.name); UpperNoColon(a.setCode);
      LowerNoColon(b.game); LowerNoColon(b.name); UpperNoColon(b.setCode);
      KeyPartsEqual(Lower(a.game), Lower(a.name), Upper(a.setCode), Lower(a.cardNumber),
                    Lower(b.game), Lower(b.name), Upper(b.setCode), Lower(b.cardNumber));
    }
  }

  /** A `::` inside a field shifts the parts of the key: these two cards
      differ in game and name but are equal. */
  lemma SeparatorInFieldCollides()
    ensures var a := Card("g", "a::b", "", "", "", "S", "1", "", "", "", "", "", "", "", "", "");
            var b := Card("g::a", "b", "", "", "", "S", "1", "", "", "", "", "", "", "", "", "");
            a.name != b.name && Equals(a, Some(b))
  {
    var a := Card("g", "a::b", "", "", "", "S", "1", "", "", "", "", "", "", "", "", "");
    var b := Card("g::a", "b", "", "", "", "S", "1", "", "", "", "", "", "", "", "", "");
    assert Lower("g") == "g" && Lower("a::b") == "a::b" && Lower("g::a") == "g::a"
      && Lower("b") == "b" && Upper("S") == "S" && Lower("1") == "1";
  }

  /** `<` is a strict order. */
  lemma LessIsStrictOrder(a: Card, b: Card, c: Card)
    ensures !Less(a, a)
    ensures Less(a, b) && Less(b, c) ==> Less(a, c)
    ensures Less(a, b) ==> !Less(b, a)
  {
    LexLessIrreflexive(a.name + "::" + a.gameSet);
    if Less(a, b) && Less(b, c) {
      LexLessTransitive(a.name + "::" + a.gameSet, b.name + "::" + b.gameSet, c.name + "::" + c.gameSet);
    }
    if Less(a, b) && Less(b, a) {
      LexLessTransitive(a.name + "::" + a.gameSet, b.name + "::" + b.gameSet, a.name + "::" + a.gameSet);
    }
  }

  /** The order sees the name with its case, while equality ignores it:
      equal cards can be ordered. */
  lemma EqualCardsCanBeOrdered()
    ensures var a := Card("m", "Elk", "", "", "s", "S", "1", "", "", "", "", "", "", "", "", "");
            var b := Card("m", "elk", "", "", "s", "S", "1", "", "", "", "", "", "", "", "", "");
            Equals(a, Some(b)) && Less(a, b)
  {
    assert Lower("Elk") == "elk" && Lower("elk") == "elk";
    assert LexLess("Elk::s", "elk::s");
  }

  /** The order does not see the number, while equality does: unequal cards
      can be unordered. */
  lemma UnequalCardsCanBeUnordered()
    ensures var a := Card("m", "elk", "", "", "s", "S", "1", "", "", "", "", "", "", "", "", "");
            var b := Card("m", "elk", "", "", "s", "S", "2", "", "", "", "", "", "", "", "", "");
            !Equals(a, Some(b)) && !Less(a, b) && !Less(b, a)
  {
    var a := Card("m", "elk", "", "", "s", "S", "1", "", "", "", "", "", "", "", "", "");
    var b := Card("m", "elk", "", "", "s", "S", "2", "", "", "", "", "", "", "", "", "");
    assert a.name + "::" + a.gameSet == b.name + "::" + b.gameSet;
    LexLessIrreflexive(a.name + "::" + a.gameSet);
    assert Lower("1") == "1" && Lower("2") == "2";
    var k1 := Key(a);
    var k2 := Key(b);
    assert k1[|k1| - 1] == '1' && k2[|k2| - 1] == '2';
  }

  lemma UpperTwice(s: string)
    ensures Upper(Upper(s)) == Upper(s)
  {
  }

  /** On a constructed card the key's `.upper()` of the set code changes
      nothing: the key holds the cleaned set code as the constructor
      upper-cased it. */
  lemma KeyOfNew(clean: string -> string, raw: Card)
    ensures Key(New(clean, raw)) == "Card::" + Lower(clean(raw.game)) + "::" + Lower(clean(raw.name))
      + "::" + New(clean, raw).setCode + "::" + Lower(clean(raw.cardNumber))
  {
    UpperTwice(clean(raw.setCode));
  }
}
