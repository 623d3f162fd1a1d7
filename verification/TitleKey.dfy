// Canonical title keys: deciding whether a parsed title and a wanted one name the
// same work.
module TitleKey {
  import opened Collecting

  // What the algorithm reads of the Unicode tables.
  datatype Unicode = Unicode(lower: char -> char, isLetter: char -> bool, isDigit: char -> bool)
  {
    predicate Word(c: char) { isLetter(c) || isDigit(c) }

    // Lower-casing settles in one step, and ASCII lower-case letters are letters.
    ghost predicate WellBehaved()
    {
      && (forall c :: lower(lower(c)) == lower(c))
      && (forall c :: 'a' <= c <= 'z' ==> isLetter(c) && lower(c) == c)
    }
  }

  const ARTICLES := {"a", "an", "the", "and", "or", "of"}

  function ToLower(u: Unicode, s: string): (r: string)
    ensures |r| == |s| && forall i :: 0 <= i < |s| ==> r[i] == u.lower(s[i])
  {
    if s == "" then "" else [u.lower(s[0])] + ToLower(u, s[1..])
  }

  // ------------------------------------------------------------- tokenizing

  // Finished tokens and the one being collected.
  datatype Scan = Scan(tokens: seq<string>, current: string)

  function Flush(scan: Scan): Scan
  {
    if scan.current == "" then scan else Scan(scan.tokens + [scan.current], "")
  }

  function ScanText(u: Unicode, s: string): Scan
  {
    if s == "" then Scan([], "")
    else
      var scan, c := ScanText(u, s[..|s| - 1]), s[|s| - 1];
      if u.Word(c) then scan.(current := scan.current + [c]) else Flush(scan)
  }

  function Tokens(u: Unicode, s: string): seq<string>
  {
    Flush(ScanText(u, s)).tokens
  }

  function NotArticle(token: string): seq<char> { if token in ARTICLES then "" else token }

  function Keep(token: string): seq<char> { token }

  // The tokens joined without the articles, or with them when nothing is left.
  function KeyOf(tokens: seq<string>): string
  {
    var key := FlatMap(NotArticle, tokens);
    if key == "" then FlatMap(Keep, tokens) else key
  }

  function Normalize(u: Unicode, s: string): string
  {
    KeyOf(Tokens(u, ToLower(u, s)))
  }

  method NormalizeTitleForMatch(u: Unicode, s: string) returns (key: string)
    ensures key == Normalize(u, s)
  {
    var lowered := ToLower(u, s);
    var tokens: seq<string>, cur := [], "";
    for i := 0 to |lowered|
      invariant Scan(tokens, cur) == ScanText(u, lowered[..i])
    {
      assert lowered[..i + 1][..i] == lowered[..i];
      var r := lowered[i];
      if u.isLetter(r) || u.isDigit(r) {
        cur := cur + [r];
        continue;
      }
      if |cur| > 0 { tokens, cur := tokens + [cur], ""; }
    }
    assert lowered[..|lowered|] == lowered;
    if |cur| > 0 { tokens, cur := tokens + [cur], ""; }
    key := "";
    for i := 0 to |tokens|
      invariant key == FlatMap(NotArticle, tokens[..i])
    {
      FlatMapStep(NotArticle, tokens, i);
      if tokens[i] in ARTICLES { continue; }
      key := key + tokens[i];
    }
    assert tokens[..|tokens|] == tokens;
    if |key| == 0 {
      for i := 0 to |tokens|
        invariant key == FlatMap(Keep, tokens[..i])
      {
        FlatMapStep(Keep, tokens, i);
        key := key + tokens[i];
      }
      assert tokens[..|tokens|] == tokens;
    }
  }

  // ---------------------------------------------------------- what a key holds

  predicate AllWord(u: Unicode, s: string) { forall i :: 0 <= i < |s| ==> u.Word(s[i]) }

  predicate AllFrom(s: string, source: string) { forall c :: c in s ==> c in source }

  // Every token is a non-empty run of word characters of the text.
  predicate TokensOf(u: Unicode, tokens: seq<string>, s: string)
  {
    forall i :: 0 <= i < |tokens| ==> tokens[i] != "" && AllWord(u, tokens[i]) && AllFrom(tokens[i], s)
  }

  lemma {:induction false} ScanHolds(u: Unicode, s: string)
    ensures TokensOf(u, ScanText(u, s).tokens, s)
    ensures AllWord(u, ScanText(u, s).current) && AllFrom(ScanText(u, s).current, s)
  {
    if s != "" {
      ScanHolds(u, s[..|s| - 1]);
      assert s == s[..|s| - 1] + [s[|s| - 1]];
    }
  }

  lemma {:induction false} JoinHolds(u: Unicode, tokens: seq<string>, s: string, f: string -> seq<char>)
    requires TokensOf(u, tokens, s) && forall t :: f(t) == t || f(t) == ""
    ensures AllWord(u, FlatMap(f, tokens)) && AllFrom(FlatMap(f, tokens), s)
  {
    if tokens != [] {
      JoinHolds(u, tokens[1..], s, f);
      assert tokens[0] != "" && AllWord(u, tokens[0]) && AllFrom(tokens[0], s);
      assert f(tokens[0]) == tokens[0] || f(tokens[0]) == "";
    }
  }

  // A key holds only letters and digits, all of them lower-case.
  lemma KeyHoldsLowerWordChars(u: Unicode, s: string)
    requires u.WellBehaved()
    ensures forall i :: 0 <= i < |Normalize(u, s)| ==> u.Word(Normalize(u, s)[i]) && u.lower(Normalize(u, s)[i]) == Normalize(u, s)[i]
  {
    var lowered := ToLower(u, s);
    var tokens := Tokens(u, lowered);
    ScanHolds(u, lowered);
    JoinHolds(u, tokens, lowered, NotArticle);
    JoinHolds(u, tokens, lowered, Keep);
    var key := Normalize(u, s);
    forall i | 0 <= i < |key| ensures u.Word(key[i]) && u.lower(key[i]) == key[i] {
      assert key[i] in key && key[i] in lowered;
      var k :| 0 <= k < |lowered| && lowered[k] == key[i];
      assert lowered[k] == u.lower(s[k]);
    }
  }

  // A run of word characters is one token.
  lemma {:induction false} ScanWord(u: Unicode, s: string)
    requires AllWord(u, s)
    ensures ScanText(u, s) == Scan([], s)
  {
    if s != "" {
      ScanWord(u, s[..|s| - 1]);
      assert s == s[..|s| - 1] + [s[|s| - 1]];
    }
  }

  lemma OneTokenKey(token: string)
    requires token != ""
    ensures KeyOf([token]) == token
  {
    assert [token][1..] == [];
    assert FlatMap(NotArticle, [token]) == NotArticle(token) + FlatMap(NotArticle, []) == NotArticle(token);
    assert FlatMap(Keep, [token]) == token + FlatMap(Keep, []) == token;
  }

  lemma LowerFixed(u: Unicode, s: string)
    requires forall i :: 0 <= i < |s| ==> u.lower(s[i]) == s[i]
    ensures ToLower(u, s) == s
  {
  }

  // Normalizing a key again changes nothing, not even for a key that spells an
  // article: a lone article is kept by the fallback.
  lemma NormalizeIdempotent(u: Unicode, s: string)
    requires u.WellBehaved()
    ensures Normalize(u, Normalize(u, s)) == Normalize(u, s)
  {
    var key := Normalize(u, s);
    KeyHoldsLowerWordChars(u, s);
    LowerFixed(u, key);
    ScanWord(u, key);
    if key == "" {
      assert Tokens(u, key) == [];
    } else {
      assert Tokens(u, key) == [key];
      OneTokenKey(key);
    }
  }

  // ------------------------------------------------------ what a key ignores

  predicate Separators(u: Unicode, s: string)
  {
    s != "" && forall i :: 0 <= i < |s| ==> !u.Word(u.lower(s[i]))
  }

  lemma {:induction false} ScanSeparators(u: Unicode, x: string, p: string)
    requires p != "" && forall i :: 0 <= i < |p| ==> !u.Word(p[i])
    ensures ScanText(u, x + p) == Scan(Tokens(u, x), "")
  {
    var n := |p| - 1;
    assert (x + p)[..|x + p| - 1] == x + p[..n];
    if n == 0 {
      assert x + p[..n] == x;
    } else {
      ScanSeparators(u, x, p[..n]);
    }
  }

  // Text after a separator is scanned on its own.
  lemma {:induction false} ScanAfter(u: Unicode, x: string, y: string)
    requires ScanText(u, x).current == ""
    ensures ScanText(u, x + y) == Scan(ScanText(u, x).tokens + ScanText(u, y).tokens, ScanText(u, y).current)
  {
    if y == "" {
      assert x + y == x;
    } else {
      var n := |y| - 1;
      ScanAfter(u, x, y[..n]);
      assert (x + y)[..|x + y| - 1] == x + y[..n];
      var scan := ScanText(u, y[..n]);
      if !u.Word(y[n]) && scan.current != "" {
        Associate(ScanText(u, x).tokens, scan.tokens, [scan.current]);
      }
    }
  }

  lemma TokensSplit(u: Unicode, x: string, p: string, y: string)
    requires p != "" && forall i :: 0 <= i < |p| ==> !u.Word(p[i])
    ensures Tokens(u, x + p + y) == Tokens(u, x) + Tokens(u, y)
  {
    ScanSeparators(u, x, p);
    ScanAfter(u, x + p, y);
    var scan := ScanText(u, y);
    if scan.current != "" { Associate(Tokens(u, x), scan.tokens, [scan.current]); }
  }

  lemma LowerSplit(u: Unicode, a: string, b: string)
    ensures ToLower(u, a + b) == ToLower(u, a) + ToLower(u, b)
  {
  }

  lemma NormalizeSplit(u: Unicode, x: string, p: string, y: string)
    requires Separators(u, p)
    ensures Normalize(u, x + p + y) == KeyOf(Tokens(u, ToLower(u, x)) + Tokens(u, ToLower(u, y)))
  {
    LowerSplit(u, x + p, y);
    LowerSplit(u, x, p);
    TokensSplit(u, ToLower(u, x), ToLower(u, p), ToLower(u, y));
  }

  // Which punctuation separates two words, and how much of it, does not matter;
  // nor does case.
  lemma PunctuationAndCaseIgnored(u: Unicode, x: string, y: string, p: string, q: string)
    requires u.WellBehaved() && Separators(u, p) && Separators(u, q)
    ensures Normalize(u, x + p + y) == Normalize(u, x + q + y)
    ensures Normalize(u, ToLower(u, x)) == Normalize(u, x)
  {
    NormalizeSplit(u, x, p, y);
    NormalizeSplit(u, x, q, y);
    LowerFixed(u, ToLower(u, x));
  }

  // Some word of the title is not an article.
  predicate HasOtherWord(tokens: seq<string>)
  {
    exists i :: 0 <= i < |tokens| && tokens[i] !in ARTICLES && tokens[i] != ""
  }

  lemma {:induction false} OtherWordKept(tokens: seq<string>)
    ensures HasOtherWord(tokens) <==> FlatMap(NotArticle, tokens) != ""
  {
    if tokens != [] {
      OtherWordKept(tokens[1..]);
      if i :| 0 <= i < |tokens[1..]| && tokens[1..][i] !in ARTICLES && tokens[1..][i] != "" {
        assert tokens[i + 1] !in ARTICLES && tokens[i + 1] != "";
      }
      if HasOtherWord(tokens) && NotArticle(tokens[0]) == "" {
        var i :| 0 <= i < |tokens| && tokens[i] !in ARTICLES && tokens[i] != "";
        assert tokens[1..][i - 1] == tokens[i];
      }
    }
  }

  lemma KeySkipsArticle(a: seq<string>, article: string, b: seq<string>)
    requires article in ARTICLES && HasOtherWord(a + b)
    ensures KeyOf(a + [article] + b) == KeyOf(a + b)
  {
    OtherWordKept(a + b);
    FlatMapSplit(NotArticle, a, b);
    FlatMapSplit(NotArticle, a + [article], b);
    FlatMapSplit(NotArticle, a, [article]);
    assert [article][1..] == [];
    assert FlatMap(NotArticle, [article]) == "";
    assert FlatMap(NotArticle, a) + "" == FlatMap(NotArticle, a);
  }

  predicate LeftOut(word: string) { word in ["a", "an", "the", "and", "or", "of"] }

  // The words that are left out of a key, and no others, unless nothing else is there.
  lemma ArticlesExactly(word: string, other: string)
    requires word != "" && other != ""
    ensures KeyOf([word, other]) ==
            if LeftOut(word) && !LeftOut(other) then other
            else if LeftOut(other) && !LeftOut(word) then word
            else word + other
  {
    assert [word, other][1..] == [other] && [other][1..] == [];
    assert FlatMap(NotArticle, [other]) == NotArticle(other) + [] == NotArticle(other);
    assert FlatMap(NotArticle, [word, other]) == NotArticle(word) + NotArticle(other);
    assert FlatMap(Keep, [other]) == other + [] == other;
    assert FlatMap(Keep, [word, other]) == word + other;
    assert NotArticle(word) == (if LeftOut(word) then "" else word) && NotArticle(other) == (if LeftOut(other) then "" else other);
    assert word + "" == word && "" + other == other;
  }

  lemma ArticleIsWord(u: Unicode, word: string)
    requires u.WellBehaved() && word in ARTICLES
    ensures word != "" && AllWord(u, word)
  {
    assert forall i :: 0 <= i < |word| ==> 'a' <= word[i] <= 'z';
  }

  lemma OneWordTokens(u: Unicode, word: string)
    requires word != "" && AllWord(u, word)
    ensures Tokens(u, word) == [word]
  {
    ScanWord(u, word);
  }

  lemma ArticleIsToken(u: Unicode, x: string, p: string, article: string)
    requires u.WellBehaved() && Separators(u, p) && ToLower(u, article) in ARTICLES
    ensures Tokens(u, ToLower(u, x + p + article)) == Tokens(u, ToLower(u, x)) + [ToLower(u, article)]
  {
    var word := ToLower(u, article);
    LowerSplit(u, x + p, article);
    LowerSplit(u, x, p);
    TokensSplit(u, ToLower(u, x), ToLower(u, p), word);
    ArticleIsWord(u, word);
    OneWordTokens(u, word);
  }

  // An article between two words, in any case, changes nothing as long as some
  // other word remains.
  lemma ArticleIgnored(u: Unicode, x: string, p: string, article: string, q: string, y: string)
    requires u.WellBehaved() && Separators(u, p) && Separators(u, q) && ToLower(u, article) in ARTICLES
    requires HasOtherWord(Tokens(u, ToLower(u, x)) + Tokens(u, ToLower(u, y)))
    ensures Normalize(u, x + p + article + q + y) == Normalize(u, x + p + y)
  {
    NormalizeSplit(u, x, p, y);
    NormalizeSplit(u, x + p + article, q, y);
    ArticleIsToken(u, x, p, article);
    KeySkipsArticle(Tokens(u, ToLower(u, x)), ToLower(u, article), Tokens(u, ToLower(u, y)));
  }

  lemma KeySkipsOuterArticle(article: string, tokens: seq<string>)
    requires article in ARTICLES && HasOtherWord(tokens)
    ensures KeyOf([article] + tokens) == KeyOf(tokens) == KeyOf(tokens + [article])
  {
    var empty: seq<string> := [];
    assert empty + tokens == tokens == tokens + empty;
    KeySkipsArticle(empty, article, tokens);
    KeySkipsArticle(tokens, article, empty);
    assert empty + [article] + tokens == [article] + tokens;
    assert tokens + [article] + empty == tokens + [article];
  }

  // Likewise for an article that starts or ends the title.
  lemma OuterArticleIgnored(u: Unicode, article: string, p: string, x: string)
    requires u.WellBehaved() && Separators(u, p) && ToLower(u, article) in ARTICLES
    requires HasOtherWord(Tokens(u, ToLower(u, x)))
    ensures Normalize(u, article + p + x) == Normalize(u, x)
    ensures Normalize(u, x + p + article) == Normalize(u, x)
  {
    var tokens, word := Tokens(u, ToLower(u, x)), ToLower(u, article);
    ArticleIsWord(u, word);
    OneWordTokens(u, word);
    NormalizeSplit(u, article, p, x);
    NormalizeSplit(u, x, p, article);
    KeySkipsOuterArticle(word, tokens);
  }

  // ---------------------------------------------------------------- matching

  const NUMERALS: seq<(string, string)> :=
    [("1", "i"), ("2", "ii"), ("3", "iii"), ("4", "iv"), ("5", "v"), ("6", "vi"), ("7", "vii"), ("8", "viii"),
     ("9", "ix"), ("10", "x"), ("11", "xi"), ("12", "xii"), ("13", "xiii"), ("14", "xiv"), ("15", "xv"),
     ("16", "xvi"), ("17", "xvii"), ("18", "xviii"), ("19", "xix"), ("20", "xx")]

  // strings.ReplaceAll; no numeral is the empty string, for which it stops here.
  function ReplaceAll(s: string, old_: string, new_: string): string
  {
    if s == "" || old_ == "" then s
    else if old_ <= s then new_ + ReplaceAll(s[|old_|..], old_, new_)
    else [s[0]] + ReplaceAll(s[1..], old_, new_)
  }

  predicate KeysMatch(ka: string, kb: string)
  {
    ka != "" && kb != "" &&
    (ka == kb ||
     exists i :: 0 <= i < |NUMERALS| &&
       (ReplaceAll(ka, NUMERALS[i].0, NUMERALS[i].1) == kb || ka == ReplaceAll(kb, NUMERALS[i].0, NUMERALS[i].1)))
  }

  predicate TitlesMatch(u: Unicode, a: string, b: string)
  {
    KeysMatch(Normalize(u, a), Normalize(u, b))
  }

  // Matching is symmetric, reflexive on titles with a key, and unchanged when
  // either title is replaced by its key.
  lemma MatchLaws(u: Unicode, a: string, b: string)
    requires u.WellBehaved()
    ensures TitlesMatch(u, a, b) <==> TitlesMatch(u, b, a)
    ensures TitlesMatch(u, a, a) <==> Normalize(u, a) != ""
    ensures TitlesMatch(u, a, b) <==> TitlesMatch(u, Normalize(u, a), b)
  {
    NormalizeIdempotent(u, a);
  }

  // A title has a key exactly when it has a word at all.
  lemma KeyNonEmpty(u: Unicode, s: string)
    ensures Normalize(u, s) != "" <==> Tokens(u, ToLower(u, s)) != []
  {
    var lowered := ToLower(u, s);
    var tokens := Tokens(u, lowered);
    ScanHolds(u, lowered);
    if tokens != [] { assert Keep(tokens[0]) != ""; }
  }

  // Articles, punctuation and case never decide a match.
  lemma MatchIgnoresArticles(u: Unicode, x: string, p: string, article: string, q: string, y: string, other: string)
    requires u.WellBehaved() && Separators(u, p) && Separators(u, q) && ToLower(u, article) in ARTICLES
    requires HasOtherWord(Tokens(u, ToLower(u, x)) + Tokens(u, ToLower(u, y)))
    ensures TitlesMatch(u, x + p + article + q + y, other) <==> TitlesMatch(u, x + q + y, other)
  {
    ArticleIgnored(u, x, p, article, q, y);
    PunctuationAndCaseIgnored(u, x, y, p, q);
  }

  // ------------------------------------------------------- numbering styles

  // No occurrence of the numeral starts before the end of pre, and none is in post.
  predicate OnlyOccurrence(pre: string, numeral: string, post: string)
  {
    && (forall i :: 0 <= i < |pre| ==> !(numeral <= (pre + numeral + post)[i..]))
    && (forall i :: 0 <= i <= |post| ==> !(numeral <= post[i..]))
  }

  lemma {:induction false} ReplaceNone(s: string, numeral: string, roman: string)
    requires forall i :: 0 <= i <= |s| ==> !(numeral <= s[i..])
    ensures ReplaceAll(s, numeral, roman) == s
  {
    if s != "" && numeral != "" {
      assert s[0..] == s;
      forall i | 0 <= i <= |s[1..]| ensures !(numeral <= s[1..][i..]) { assert s[1..][i..] == s[i + 1..]; }
      ReplaceNone(s[1..], numeral, roman);
      assert s == [s[0]] + s[1..];
    }
  }

  // Replacing the one occurrence of a numeral.
  lemma {:induction false} ReplaceOne(pre: string, numeral: string, post: string, roman: string)
    requires numeral != "" && OnlyOccurrence(pre, numeral, post)
    ensures ReplaceAll(pre + numeral + post, numeral, roman) == pre + roman + post
  {
    var s := pre + numeral + post;
    if pre == "" {
      assert s == numeral + post && s[|numeral|..] == post;
      ReplaceNone(post, numeral, roman);
      assert roman + post == pre + roman + post;
    } else {
      assert s[0..] == s;
      var rest := pre[1..] + numeral + post;
      assert s[1..] == rest;
      forall i | 0 <= i < |pre[1..]| ensures !(numeral <= rest[i..]) { assert rest[i..] == s[i + 1..]; }
      ReplaceOne(pre[1..], numeral, post, roman);
      assert [s[0]] + (pre[1..] + roman + post) == pre + roman + post;
    }
  }

  // Keys that differ only in how one number from 1 to 20 is written match, in either
  // order, as long as the number occurs once in the arabic key.
  lemma NumeralsMatch(pre: string, n: nat, post: string)
    requires n < |NUMERALS| && OnlyOccurrence(pre, NUMERALS[n].0, post)
    ensures KeysMatch(pre + NUMERALS[n].0 + post, pre + NUMERALS[n].1 + post)
    ensures KeysMatch(pre + NUMERALS[n].1 + post, pre + NUMERALS[n].0 + post)
  {
    NumeralsNonEmpty(n);
    ReplaceOne(pre, NUMERALS[n].0, post, NUMERALS[n].1);
  }

  lemma NumeralsNonEmpty(n: nat)
    requires n < |NUMERALS|
    ensures NUMERALS[n].0 != "" && NUMERALS[n].1 != ""
    ensures NUMERALS[n].0 !in ARTICLES && NUMERALS[n].1 !in ARTICLES
    ensures forall i :: 0 <= i < |NUMERALS[n].0| ==> '0' <= NUMERALS[n].0[i] <= '9'
    ensures forall i :: 0 <= i < |NUMERALS[n].1| ==> 'a' <= NUMERALS[n].1[i] <= 'z'
  {
  }

  function RomanDigit(c: char): int { if c == 'i' then 1 else if c == 'v' then 5 else if c == 'x' then 10 else 0 }

  // The number that a roman numeral stands for: a smaller digit in front of a greater
  // one is taken off.
  function RomanValue(s: string): int
  {
    if s == "" then 0
    else
      var rest := RomanValue(s[1..]);
      if |s| > 1 && RomanDigit(s[0]) < RomanDigit(s[1]) then rest - RomanDigit(s[0]) else rest + RomanDigit(s[0])
  }

  // The table pairs each number from 1 to 20 with its own roman numeral.
  lemma NumeralsExactly(n: nat)
    requires n < |NUMERALS|
    ensures |NUMERALS| == 20 && RomanValue(NUMERALS[n].1) == n + 1
  {
  }

  // ASCII digits are digits, and lower-casing leaves them alone.
  predicate KnowsDigits(u: Unicode)
  {
    forall c :: '0' <= c <= '9' ==> u.isDigit(c) && u.lower(c) == c
  }

  // A title that ends in one more word has that word at the end of its key.
  lemma KeyWithWord(u: Unicode, x: string, p: string, word: string)
    requires Separators(u, p) && ToLower(u, word) != "" && AllWord(u, ToLower(u, word)) && ToLower(u, word) !in ARTICLES
    ensures Normalize(u, x + p + word) == FlatMap(NotArticle, Tokens(u, ToLower(u, x))) + ToLower(u, word)
  {
    var tokens, lowered := Tokens(u, ToLower(u, x)), ToLower(u, word);
    NormalizeSplit(u, x, p, word);
    OneWordTokens(u, lowered);
    FlatMapSplit(NotArticle, tokens, [lowered]);
    assert [lowered][1..] == [];
    assert FlatMap(NotArticle, [lowered]) == lowered;
  }

  // "Highlander 2" and "Highlander II": sequels match across numbering styles, the
  // roman numeral in any case, when the number does not occur in the rest of the key.
  lemma SequelsMatch(u: Unicode, x: string, p: string, q: string, n: nat, roman: string)
    requires u.WellBehaved() && KnowsDigits(u) && Separators(u, p) && Separators(u, q)
    requires n < |NUMERALS| && ToLower(u, roman) == NUMERALS[n].1
    requires OnlyOccurrence(FlatMap(NotArticle, Tokens(u, ToLower(u, x))), NUMERALS[n].0, "")
    ensures TitlesMatch(u, x + p + NUMERALS[n].0, x + q + roman)
  {
    var arabic, pre := NUMERALS[n].0, FlatMap(NotArticle, Tokens(u, ToLower(u, x)));
    NumeralsNonEmpty(n);
    LowerFixed(u, arabic);
    KeyWithWord(u, x, p, arabic);
    KeyWithWord(u, x, q, roman);
    NumeralsMatch(pre, n, "");
    assert pre + arabic + "" == pre + arabic && pre + NUMERALS[n].1 + "" == pre + NUMERALS[n].1;
  }

  // --------------------------------------------- numbers that are taken for others

  predicate NoDigit(s: string) { forall i :: 0 <= i < |s| ==> !('0' <= s[i] <= '9') }

  // Text without digits passes a replacement unchanged.
  lemma {:induction false} ReplaceBehind(pre: string, s: string, n: nat)
    requires NoDigit(pre) && n < |NUMERALS|
    ensures ReplaceAll(pre + s, NUMERALS[n].0, NUMERALS[n].1) == pre + ReplaceAll(s, NUMERALS[n].0, NUMERALS[n].1)
  {
    NumeralsNonEmpty(n);
    if pre == "" {
      assert pre + s == s;
    } else {
      var rest := pre[1..];
      ReplaceBehind(rest, s, n);
      assert pre == [pre[0]] + rest;
      assert (pre + s)[0] == pre[0] && (pre + s)[1..] == rest + s;
      assert !(NUMERALS[n].0 <= pre + s) by { assert NUMERALS[n].0[0] != pre[0]; }
      Associate([pre[0]], rest, ReplaceAll(s, NUMERALS[n].0, NUMERALS[n].1));
    }
  }

  lemma ReplaceNothing(s: string, n: nat)
    requires NoDigit(s) && n < |NUMERALS|
    ensures ReplaceAll(s, NUMERALS[n].0, NUMERALS[n].1) == s
  {
    ReplaceBehind(s, "", n);
    assert s + "" == s && ReplaceAll("", NUMERALS[n].0, NUMERALS[n].1) == "";
  }

  // The numeral of one digit in a text of one digit.
  lemma ReplaceDigit(d: char, numeral: string, roman: string)
    requires numeral != "" && roman != ""
    ensures ReplaceAll([d], numeral, roman) == if numeral == [d] then roman else [d]
  {
    assert [d][1..] == "" && ReplaceAll("", numeral, roman) == "";
    if numeral == [d] { assert [d][|numeral|..] == "" && roman + "" == roman; }
  }

  // And in a text of two: the whole text, or digit by digit.
  lemma ReplaceTwoDigits(c: char, d: char, numeral: string, roman: string)
    requires numeral != "" && roman != ""
    ensures ReplaceAll([c, d], numeral, roman) ==
            if numeral == [c, d] then roman
            else (if numeral == [c] then roman else [c]) + (if numeral == [d] then roman else [d])
  {
    ReplaceDigit(d, numeral, roman);
    assert [c, d][1..] == [d] && [c, d][2..] == "" && ReplaceAll("", numeral, roman) == "";
    assert roman + "" == roman;
    if numeral <= [c, d] {
      assert numeral == [c] || numeral == [c, d];
    }
  }

  lemma NumeralDigits(n: nat)
    requires n < |NUMERALS|
    ensures 1 <= |NUMERALS[n].0| <= 2 && n + 1 == (if n < 9 then 0 else 10 * DigitOf(NUMERALS[n].0[0])) + DigitOf(NUMERALS[n].0[|NUMERALS[n].0| - 1])
    ensures |NUMERALS[n].0| == if n < 9 then 1 else 2
  {
  }

  function DigitOf(c: char): int { c as int - '0' as int }

  // No two numbers share their roman numeral.
  lemma RomansDiffer(m: nat, n: nat)
    requires m < |NUMERALS| && n < |NUMERALS| && NUMERALS[m].1 == NUMERALS[n].1
    ensures m == n
  {
  }

  lemma SameNumeral(m: nat, k: nat)
    requires m < |NUMERALS| && k < |NUMERALS| && NUMERALS[m].0 == NUMERALS[k].0
    ensures m == k
  {
    NumeralDigits(m);
    NumeralDigits(k);
  }

  // Only "11" turns into letters digit by digit.
  lemma ReplacedNumeral(m: nat, k: nat)
    requires m < |NUMERALS| && k < |NUMERALS|
    ensures NoDigit(ReplaceAll(NUMERALS[m].0, NUMERALS[k].0, NUMERALS[k].1)) <==> m == k || (m == 10 && k == 0)
    ensures ReplaceAll(NUMERALS[m].0, NUMERALS[m].0, NUMERALS[m].1) == NUMERALS[m].1
    ensures m == 10 && k == 0 ==> ReplaceAll(NUMERALS[m].0, NUMERALS[k].0, NUMERALS[k].1) == NUMERALS[1].1
  {
    NumeralsNonEmpty(m);
    NumeralsNonEmpty(k);
    NumeralDigits(m);
    NumeralDigits(k);
    var arabic, numeral, roman := NUMERALS[m].0, NUMERALS[k].0, NUMERALS[k].1;
    if numeral == arabic { SameNumeral(m, k); }
    if |arabic| == 1 {
      assert arabic == [arabic[0]];
      ReplaceDigit(arabic[0], numeral, roman);
      ReplaceDigit(arabic[0], arabic, NUMERALS[m].1);
    } else {
      assert arabic == [arabic[0], arabic[1]];
      ReplaceTwoDigits(arabic[0], arabic[1], numeral, roman);
      ReplaceTwoDigits(arabic[0], arabic[1], arabic, NUMERALS[m].1);
      var first, second := if numeral == [arabic[0]] then roman else [arabic[0]], if numeral == [arabic[1]] then roman else [arabic[1]];
      if numeral != arabic {
        assert numeral != [arabic[0]] ==> (first + second)[0] == arabic[0];
        assert numeral != [arabic[1]] ==> (first + second)[|first|] == arabic[1];
      }
    }
  }

  // Exactly: behind the same text without digits, a number from 1 to 20 matches a
  // roman numeral if it is that number, or if they are 11 and "ii", whose digits are
  // each taken for a one.
  lemma SequelNumbers(pre: string, m: nat, n: nat)
    requires NoDigit(pre) && m < |NUMERALS| && n < |NUMERALS|
    ensures KeysMatch(pre + NUMERALS[m].0, pre + NUMERALS[n].1) <==> m == n || (m == 10 && n == 1)
  {
    var arabic, roman := NUMERALS[m].0, NUMERALS[n].1;
    NumeralsNonEmpty(m);
    NumeralsNonEmpty(n);
    assert (pre + arabic)[|pre|] == arabic[0] && (pre + roman)[|pre|] == roman[0];
    assert NoDigit(pre + roman) && !NoDigit(pre + arabic);
    forall k | 0 <= k < |NUMERALS|
      ensures ReplaceAll(pre + arabic, NUMERALS[k].0, NUMERALS[k].1) == pre + roman <==>
              (m == k && m == n) || (m == 10 && k == 0 && n == 1)
      ensures pre + arabic != ReplaceAll(pre + roman, NUMERALS[k].0, NUMERALS[k].1)
    {
      ReplaceBehind(pre, arabic, k);
      ReplaceNothing(pre + roman, k);
      ReplacedNumeral(m, k);
      var replaced := ReplaceAll(arabic, NUMERALS[k].0, NUMERALS[k].1);
      PrefixCancels(pre, replaced, roman);
      if m == k && replaced == roman { RomansDiffer(m, n); }
      if m == 10 && k == 0 && replaced == roman { RomansDiffer(1, n); }
    }
    assert m == 10 && n == 1 ==> ReplaceAll(pre + arabic, NUMERALS[0].0, NUMERALS[0].1) == pre + roman;
  }
}
