/** The pattern matcher of grep.c.  A C string is its characters before the terminator;
    reading at its end gives the terminator. */
module Grep {

  const NUL := '\0'

  function At(s: string, i: nat): (c: char) {
    if i < |s| then s[i] else NUL
  }

  // ----- What a pattern means

  datatype Item =
    | Lit(c: char)      // that character
    | Any               // . : any one character
    | Star(c: char)     // c* : any number of c
    | StarAny           // .* : anything
    | End               // a final $ : nothing, at the end of the text

  function StarOf(c: char): (x: Item) {
    if c == '.' then StarAny else Star(c)
  }

  function Single(c: char): (x: Item) {
    if c == '.' then Any else Lit(c)
  }

  /** The items of a pattern without its leading ^.  A * binds the character before it, $ is
      special only as the last character, and ^ is an ordinary character here. */
  function Items(re: string): (items: seq<Item>) {
    if re == "" then []
    else if At(re, 1) == '*' then [StarOf(re[0])] + Items(re[2..])
    else if re == "$" then [End]
    else [Single(re[0])] + Items(re[1..])
  }

  /** How an item is written. */
  function Written(x: Item): (s: string) {
    match x
    case Lit(c) => [c]
    case Any => "."
    case Star(c) => [c, '*']
    case StarAny => ".*"
    case End => "$"
  }

  function Pattern(items: seq<Item>): (re: string) {
    if items == [] then "" else Written(items[0]) + Pattern(items[1..])
  }

  /** Items that can be told apart once written: a dot is no literal, a literal star does not
      come after what it would repeat, and $ is the end exactly if it comes last. */
  predicate Plain(items: seq<Item>) {
    items != [] ==>
      && items[0] != Lit('.') && items[0] != Star('.')
      && (items[0].End? ==> |items| == 1) && (items[0] == Lit('$') ==> |items| > 1)
      && (|items| > 1 && !IsStar(items[0]) ==> Head(items[1]) != '*')
      && Plain(items[1..])
  }

  function Head(x: Item): (c: char) {
    Written(x)[0]
  }

  predicate IsStar(x: Item) {
    x.Star? || x.StarAny?
  }

  lemma HeadOf(items: seq<Item>)
    requires items != []
    ensures Pattern(items) != "" && Pattern(items)[0] == Head(items[0])
  {
  }

  /** Every pattern is its items written out, and every plain sequence of items is what its
      pattern stands for: Items is the one reading of a pattern. */
  lemma {:induction false} PatternOfItems(re: string)
    requires NUL !in re
    ensures Pattern(Items(re)) == re && Plain(Items(re))
  {
    if re == "" {
    } else if At(re, 1) == '*' {
      PatternOfItems(re[2..]);
      ItemsCons(StarOf(re[0]), Items(re[2..]));
      assert re == [re[0], '*'] + re[2..];
    } else if re != "$" {
      PatternOfItems(re[1..]);
      ItemsCons(Single(re[0]), Items(re[1..]));
      assert re == [re[0]] + re[1..];
      if Items(re[1..]) != [] {
        HeadOf(Items(re[1..]));
      }
    } else {
      ItemsCons(End, []);
    }
  }

  lemma ItemsCons(x: Item, items: seq<Item>)
    ensures Pattern([x] + items) == Written(x) + Pattern(items)
    ensures ([x] + items)[1..] == items
  {
    assert ([x] + items)[1..] == items;
  }

  lemma {:induction false} ItemsOfPattern(items: seq<Item>)
    requires Plain(items) && NUL !in Pattern(items)
    ensures Items(Pattern(items)) == items
  {
    if items != [] {
      var re, w := Pattern(items), Written(items[0]);
      assert re[|w|..] == Pattern(items[1..]);
      ItemsOfPattern(items[1..]);
      assert items == [items[0]] + items[1..];
      if |items| > 1 {
        HeadOf(items[1..]);
      } else {
        assert items[1..] == [];
      }
    }
  }

  predicate Repeats(c: char, w: string) {
    forall i | 0 <= i < |w| :: w[i] == c
  }

  /** The strings that one item stands for. */
  predicate Fits(x: Item, w: string) {
    match x
    case Lit(c) => w == [c]
    case Any => |w| == 1
    case Star(c) => Repeats(c, w)
    case StarAny => true
    case End => w == ""
  }

  function Concat(pieces: seq<string>): (w: string) {
    if pieces == [] then "" else pieces[0] + Concat(pieces[1..])
  }

  /** `pieces`, one for each item, spell out a beginning of `text`, and all of it if the
      pattern ends in $. */
  ghost predicate Spells(items: seq<Item>, pieces: seq<string>, text: string) {
    && |pieces| == |items|
    && (forall i | 0 <= i < |items| :: Fits(items[i], pieces[i]))
    && Concat(pieces) <= text
    && (End in items ==> Concat(pieces) == text)
  }

  ghost predicate Meaning(items: seq<Item>, text: string) {
    exists pieces :: Spells(items, pieces, text)
  }

  /** What a whole pattern means: after a leading ^ the match starts at the beginning of the
      text, otherwise anywhere in it. */
  ghost predicate PatternMeaning(re: string, text: string) {
    if At(re, 0) == '^' then Meaning(Items(re[1..]), text)
    else exists start: nat :: start <= |text| && Meaning(Items(re), text[start..])
  }

  /** A leading ^ ties a pattern to the beginning of the text.  A pattern without one is found
      wherever the same pattern with one is. */
  lemma CaretMeans(re: string, text: string)
    requires At(re, 0) != '^'
    ensures PatternMeaning(['^'] + re, text) <==> Meaning(Items(re), text)
    ensures PatternMeaning(re, text) <==>
      exists start: nat :: start <= |text| && PatternMeaning(['^'] + re, text[start..])
  {
    assert (['^'] + re)[1..] == re;
    if start: nat :| start <= |text| && Meaning(Items(re), text[start..]) {
      assert PatternMeaning(['^'] + re, text[start..]);
    }
  }

  // ----- The meaning item by item

  predicate OneFits(x: Item, c: char) {
    match x
    case Lit(d) => c == d
    case Any => true
    case Star(d) => c == d
    case StarAny => true
    case End => false
  }

  ghost predicate Here(items: seq<Item>, text: string)
    decreases |items|, 0, 0
  {
    if items == [] then true
    else
      var x := items[0];
      if x.Star? || x.StarAny? then HereAfter(x, items[1..], text)
      else if x.End? then text == "" && Here(items[1..], text)
      else text != "" && OneFits(x, text[0]) && Here(items[1..], text[1..])
  }

  /** Some number of characters that `x` allows, then the rest of the items. */
  ghost predicate HereAfter(x: Item, rest: seq<Item>, text: string)
    decreases |rest|, 1, |text|
  {
    Here(rest, text) || (text != "" && OneFits(x, text[0]) && HereAfter(x, rest, text[1..]))
  }

  predicate EndLast(items: seq<Item>) {
    forall i | 0 <= i < |items| - 1 :: !items[i].End?
  }

  lemma {:induction false} ItemsEndLast(re: string)
    ensures EndLast(Items(re))
  {
    if re == "" {
    } else if At(re, 1) == '*' {
      ItemsEndLast(re[2..]);
    } else if re != "$" {
      ItemsEndLast(re[1..]);
    }
  }

  lemma SpellsCons(x: Item, items: seq<Item>, w: string, pieces: seq<string>, text: string)
    requires Fits(x, w) && w <= text && Spells(items, pieces, text[|w|..])
    requires x.End? ==> text == w && Concat(pieces) == ""
    ensures Spells([x] + items, [w] + pieces, text)
  {
    assert ([w] + pieces)[1..] == pieces;
    assert Concat([w] + pieces) == w + Concat(pieces);
    assert text == w + text[|w|..];
  }

  lemma SpellsTail(items: seq<Item>, pieces: seq<string>, text: string)
    requires items != [] && Spells(items, pieces, text)
    ensures Fits(items[0], pieces[0]) && pieces[0] <= text
    ensures Spells(items[1..], pieces[1..], text[|pieces[0]|..])
  {
    var w := pieces[0];
    assert Concat(pieces) == w + Concat(pieces[1..]);
    assert text[..|w|] == w;
    assert forall i | 0 <= i < |items| - 1 :: items[1..][i] == items[i + 1] && pieces[1..][i] == pieces[i + 1];
  }

  /** A star found by trying longer and longer prefixes is a prefix that fits it. */
  lemma {:induction false} StarPrefix(x: Item, rest: seq<Item>, text: string) returns (k: nat)
    requires IsStar(x) && HereAfter(x, rest, text)
    ensures k <= |text| && Fits(x, text[..k]) && Here(rest, text[k..])
    decreases |text|
  {
    if Here(rest, text) {
      k := 0;
      assert text[0..] == text;
    } else {
      var j := StarPrefix(x, rest, text[1..]);
      k := j + 1;
      assert text[..k] == [text[0]] + text[1..][..j];
      assert text[k..] == text[1..][j..];
    }
  }

  lemma {:induction false} PrefixStar(x: Item, rest: seq<Item>, text: string, k: nat)
    requires IsStar(x) && k <= |text| && Fits(x, text[..k]) && Here(rest, text[k..])
    ensures HereAfter(x, rest, text)
    decreases k
  {
    if k == 0 {
      assert text[0..] == text;
    } else {
      assert text[..k][0] == text[0];
      assert text[1..][..k - 1] == text[..k][1..];
      assert text[1..][k - 1..] == text[k..];
      PrefixStar(x, rest, text[1..], k - 1);
    }
  }

  lemma {:induction false} ToPieces(items: seq<Item>, text: string) returns (pieces: seq<string>)
    requires Here(items, text) && EndLast(items)
    ensures Spells(items, pieces, text)
    decreases |items|
  {
    if items == [] {
      pieces := [];
    } else {
      var x, rest := items[0], items[1..];
      assert EndLast(rest) by { assert forall i | 0 <= i < |rest| :: rest[i] == items[i + 1]; }
      assert items == [x] + rest;
      var k := 0;
      if IsStar(x) {
        k := StarPrefix(x, rest, text);
      } else if !x.End? {
        k := 1;
      }
      assert Fits(x, text[..k]);
      if k == 0 { assert text[0..] == text; }
      var more := ToPieces(rest, text[k..]);
      SpellsCons(x, rest, text[..k], more, text);
      pieces := [text[..k]] + more;
    }
  }

  lemma {:induction false} FromPieces(items: seq<Item>, pieces: seq<string>, text: string)
    requires Spells(items, pieces, text) && EndLast(items)
    ensures Here(items, text)
    decreases |items|
  {
    if items != [] {
      var x, rest := items[0], items[1..];
      assert EndLast(rest) by { assert forall i | 0 <= i < |rest| :: rest[i] == items[i + 1]; }
      SpellsTail(items, pieces, text);
      var k := |pieces[0]|;
      assert text[..k] == pieces[0];
      FromPieces(rest, pieces[1..], text[k..]);
      if IsStar(x) {
        PrefixStar(x, rest, text, k);
      } else if x.End? {
        assert rest == [] && pieces[1..] == [];
        assert Concat(pieces) == pieces[0] + Concat(pieces[1..]);
        assert text == "";
      }
    }
  }

  lemma HereIsMeaning(items: seq<Item>, text: string)
    requires EndLast(items)
    ensures Here(items, text) <==> Meaning(items, text)
  {
    if Here(items, text) {
      var pieces := ToPieces(items, text);
    }
    if Meaning(items, text) {
      var pieces :| Spells(items, pieces, text);
      FromPieces(items, pieces, text);
    }
  }

  // ----- The code

  /** matchhere(): the pattern is found at the beginning of the text. */
  method MatchHere(re: string, text: string) returns (b: bool)
    requires NUL !in re && NUL !in text
    ensures b == Meaning(Items(re), text)
    decreases |re|, 0
  {
    ItemsEndLast(re);
    HereIsMeaning(Items(re), text);
    if At(re, 0) == NUL {
      return true;
    }
    if At(re, 1) == '*' {
      b := MatchStar(re[0], re[2..], text);
      return;
    }
    if At(re, 0) == '$' && At(re, 1) == NUL {
      assert re == "$";
      return At(text, 0) == NUL;
    }
    if At(text, 0) != NUL && (At(re, 0) == '.' || At(re, 0) == At(text, 0)) {
      b := MatchHere(re[1..], text[1..]);
      ItemsEndLast(re[1..]);
      HereIsMeaning(Items(re[1..]), text[1..]);
      return;
    }
    return false;
  }

  /** matchstar(): c* and then the rest of the pattern. */
  method MatchStar(c: char, re: string, text: string) returns (b: bool)
    requires NUL !in re && NUL !in text && c != NUL
    ensures b == HereAfter(StarOf(c), Items(re), text)
    decreases |re|, 1
  {
    ItemsEndLast(re);
    var t := 0;
    while true
      invariant t <= |text|
      invariant HereAfter(StarOf(c), Items(re), text) == HereAfter(StarOf(c), Items(re), text[t..])
      decreases |text| - t
    {
      var here := MatchHere(re, text[t..]);
      HereIsMeaning(Items(re), text[t..]);
      if here {
        return true;
      }
      if !(At(text, t) != NUL && (At(text, t) == c || c == '.')) {
        return false;
      }
      assert text[t..][1..] == text[t + 1..];
      t := t + 1;
    }
  }

  /** match(): true exactly when the pattern's meaning holds. */
  method Match(re: string, text: string) returns (b: bool)
    requires NUL !in re && NUL !in text
    ensures b == PatternMeaning(re, text)
  {
    if At(re, 0) == '^' {
      b := MatchHere(re[1..], text);
      return;
    }
    var t := 0;
    while true
      invariant t <= |text|
      invariant forall i | 0 <= i < t :: !Meaning(Items(re), text[i..])
      decreases |text| - t
    {
      var here := MatchHere(re, text[t..]);
      if here {
        return true;
      }
      if At(text, t) == NUL {
        return false;
      }
      t := t + 1;
    }
  }
}
