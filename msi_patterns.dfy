/**
 * Splitting of a ';'-separated list of application names and the
 * wildcard comparison of an installed product's name with one pattern,
 * as done by UninstallMsiProductByNameAction (SplitApplicationNames,
 * PatternMatchApplicationName and GetRegExpPattern).
 */
module MsiPatterns {

  // ---------------------------------------------------------------------
  // Splitting on ';'
  // ---------------------------------------------------------------------

  /** The pieces of `s` between ';' separators, empty pieces included,
      in input order (what String.Split gives before empty entries go). */
  function Split(s: string): (r: seq<string>)
    ensures |r| >= 1
    decreases |s|
  {
    if s == [] then [[]]
    else
      var init := Split(s[..|s| - 1]);
      var c := s[|s| - 1];
      if c == ';' then init + [[]]
      else init[..|init| - 1] + [init[|init| - 1] + [c]]
  }

  /** The pieces joined back with ';' between consecutive pieces. */
  function Join(ps: seq<string>): string
    decreases |ps|
  {
    if ps == [] then []
    else if |ps| == 1 then ps[0]
    else Join(ps[..|ps| - 1]) + [';'] + ps[|ps| - 1]
  }

  /** The pieces with the empty ones dropped, keeping their order
      (StringSplitOptions.RemoveEmptyEntries). */
  function RemoveEmpty(ps: seq<string>): (r: seq<string>)
    ensures |r| <= |ps|
    ensures forall p :: p in r ==> p in ps && p != []
    decreases |ps|
  {
    if ps == [] then []
    else
      var last := ps[|ps| - 1];
      RemoveEmpty(ps[..|ps| - 1]) + (if last == [] then [] else [last])
  }

  /** The positions of the non-empty pieces, in increasing order. */
  function NonEmptyIndices(ps: seq<string>): seq<nat>
    decreases |ps|
  {
    if ps == [] then []
    else
      var n := |ps| - 1;
      NonEmptyIndices(ps[..n]) + (if ps[n] == [] then [] else [n])
  }

  /** Dropping the empty pieces keeps exactly the non-empty ones, each
      once, in their order: the result is the input at strictly increasing
      positions, and a position is among them exactly when its piece is
      non-empty. */
  lemma {:induction false} RemoveEmptyIsOrderedSubsequence(ps: seq<string>)
    ensures var r := RemoveEmpty(ps);
      var idx := NonEmptyIndices(ps);
      |idx| == |r| &&
      (forall k :: 0 <= k < |idx| ==> idx[k] < |ps| && r[k] == ps[idx[k]]) &&
      (forall k, l :: 0 <= k < l < |idx| ==> idx[k] < idx[l]) &&
      (forall i :: 0 <= i < |ps| ==> (i in idx <==> ps[i] != []))
    decreases |ps|
  {
    if ps != [] {
      var n := |ps| - 1;
      var init := ps[..n];
      RemoveEmptyIsOrderedSubsequence(init);
      var idx0 := NonEmptyIndices(init);
      assert forall k :: 0 <= k < |idx0| ==> idx0[k] < n;
      assert forall i :: 0 <= i < n ==> ps[i] == init[i];
    }
  }

  /** Dropping the empty pieces of two lists one after the other is
      dropping them from each list. */
  lemma {:induction false} RemoveEmptyAppend(a: seq<string>, b: seq<string>)
    ensures RemoveEmpty(a + b) == RemoveEmpty(a) + RemoveEmpty(b)
    decreases |b|
  {
    if b == [] {
      assert a + b == a;
    } else {
      var n := |b| - 1;
      assert (a + b)[..|a + b| - 1] == a + b[..n];
      assert (a + b)[|a + b| - 1] == b[n];
      RemoveEmptyAppend(a, b[..n]);
    }
  }

  /** No piece of a split contains the separator. */
  lemma {:induction false} SplitHasNoSeparator(s: string)
    ensures forall p :: p in Split(s) ==> ';' !in p
    decreases |s|
  {
    if s != [] {
      SplitHasNoSeparator(s[..|s| - 1]);
      var init := Split(s[..|s| - 1]);
      assert forall p :: p in init[..|init| - 1] ==> p in init;
    }
  }

  /** Joining the pieces gives back the input: the pieces are the
      input's ';'-separated parts, in order, and nothing is lost. */
  lemma {:induction false} JoinSplit(s: string)
    ensures Join(Split(s)) == s
    decreases |s|
  {
    if s != [] {
      var t := s[..|s| - 1];
      var init := Split(t);
      JoinSplit(t);
      if s[|s| - 1] == ';' {
        assert (init + [[]])[..|init|] == init;
      } else {
        var r := init[..|init| - 1] + [init[|init| - 1] + [s[|s| - 1]]];
        if |init| == 1 {
          assert Join(r) == init[0] + [s[|s| - 1]];
        } else {
          assert r[..|r| - 1] == init[..|init| - 1];
          assert Join(init) == Join(init[..|init| - 1]) + [';'] + init[|init| - 1];
        }
        assert s == t + [s[|s| - 1]];
      }
    }
  }

  /** Appending separator-free text extends the last piece. */
  lemma {:induction false} SplitAppendPlain(u: string, v: string)
    requires ';' !in v
    ensures var su := Split(u);
      Split(u + v) == su[..|su| - 1] + [su[|su| - 1] + v]
    decreases |v|
  {
    var su := Split(u);
    if v == [] {
      assert u + v == u;
      assert su[|su| - 1] + v == su[|su| - 1];
      assert su == su[..|su| - 1] + [su[|su| - 1]];
    } else {
      var v' := v[..|v| - 1];
      var c := v[|v| - 1];
      assert c in v;
      assert v' + [c] == v;
      assert (u + v') + [c] == u + v;
      SplitAppendPlain(u, v');
      SplitAppendChar(u, v', c);
    }
  }

  /** The step of SplitAppendPlain: one more plain character after v. */
  lemma SplitAppendChar(u: string, v: string, c: char)
    requires c != ';'
    requires var su := Split(u);
      Split(u + v) == su[..|su| - 1] + [su[|su| - 1] + v]
    ensures var su := Split(u);
      Split((u + v) + [c]) == su[..|su| - 1] + [su[|su| - 1] + (v + [c])]
  {
    var su := Split(u);
    SplitPlainChar(u + v, c);
    LastPieceExtended(Split(u + v), su[..|su| - 1], su[|su| - 1], v, c);
  }

  lemma LastPieceExtended(init: seq<string>, front: seq<string>, last: string, v: string, c: char)
    requires init == front + [last + v]
    ensures init[..|init| - 1] + [init[|init| - 1] + [c]] == front + [last + (v + [c])]
  {
    assert init[..|init| - 1] == front;
    assert init[|init| - 1] + [c] == last + (v + [c]);
  }

  /** Splitting the join of separator-free pieces gives the pieces back. */
  lemma {:induction false} SplitJoin(ps: seq<string>)
    requires |ps| >= 1
    requires forall p :: p in ps ==> ';' !in p
    ensures Split(Join(ps)) == ps
    decreases |ps|
  {
    var last := ps[|ps| - 1];
    assert last in ps;
    if |ps| == 1 {
      SplitAppendPlain([], last);
      assert [] + last == last;
    } else {
      var init := ps[..|ps| - 1];
      assert forall p :: p in init ==> p in ps;
      SplitJoin(init);
      SplitNewPiece(Join(init), last);
      assert ps == init + [last];
    }
  }

  /** A ';' followed by separator-free text adds exactly that text as a
      new last piece. */
  lemma SplitNewPiece(u: string, v: string)
    requires ';' !in v
    ensures Split(u + [';'] + v) == Split(u) + [v]
  {
    SplitSeparator(u);
    SplitAppendPlain(u + [';'], v);
    var sj := Split(u) + [[]];
    assert sj[..|sj| - 1] == Split(u);
    assert sj[|sj| - 1] + v == v;
  }

  /** A trailing ';' opens a new, empty piece. */
  lemma SplitSeparator(s: string)
    ensures Split(s + [';']) == Split(s) + [[]]
  {
    assert (s + [';'])[..|s|] == s;
  }

  /** A trailing character other than ';' extends the last piece. */
  lemma SplitPlainChar(s: string, c: char)
    requires c != ';'
    ensures var t := Split(s); Split(s + [c]) == t[..|t| - 1] + [t[|t| - 1] + [c]]
  {
    assert (s + [c])[..|s|] == s;
  }

  /** The names a ';'-separated text denotes: the pieces of the split with
      the empty ones dropped, in order (String.Split with
      StringSplitOptions.RemoveEmptyEntries). Every name is non-empty and
      holds no ';'. */
  function NamesOf(textToSplit: string): (names: seq<string>)
    ensures forall k :: 0 <= k < |names| ==> names[k] != [] && ';' !in names[k]
  {
    SplitHasNoSeparator(textToSplit);
    var names := RemoveEmpty(Split(textToSplit));
    assert forall k :: 0 <= k < |names| ==> names[k] in names;
    names
  }

  /** SplitApplicationNames: the split array is copied, entry by entry,
      into a fresh list. */
  method SplitApplicationNames(textToSplit: string) returns (applicationNames: seq<string>)
    ensures applicationNames == NamesOf(textToSplit)
  {
    applicationNames := [];
    var applicationsArray := NamesOf(textToSplit);
    for i := 0 to |applicationsArray|
      invariant applicationNames == applicationsArray[..i]
    {
      applicationNames := applicationNames + [applicationsArray[i]];
    }
  }

  /** Splitting a ';'-joined list of separator-free names gives back the
      non-empty ones, in order. */
  lemma SplitNamesOfJoin(ps: seq<string>)
    requires |ps| >= 1
    requires forall p :: p in ps ==> ';' !in p
    ensures NamesOf(Join(ps)) == RemoveEmpty(ps)
  {
    SplitJoin(ps);
  }

  // ---------------------------------------------------------------------
  // Case-insensitive comparison
  // ---------------------------------------------------------------------

  /** Simple case folding: upper-case ASCII letters map to lower case. */
  function Fold(c: char): char
  {
    if 'A' <= c <= 'Z' then (c as int + 32) as char else c
  }

  /** String.Compare(a, b, true) == 0. */
  predicate EqualsIgnoreCase(a: string, b: string)
  {
    |a| == |b| && forall i :: 0 <= i < |a| ==> Fold(a[i]) == Fold(b[i])
  }

  // ---------------------------------------------------------------------
  // Wildcard patterns
  // ---------------------------------------------------------------------

  /** The pattern holds a joker: '%' (any run) or '_' (one character). */
  predicate HasWildcard(pattern: string)
  {
    '%' in pattern || '_' in pattern
  }

  /** Characters that .NET regular expressions give a meaning of their own. */
  predicate IsRegexMeta(c: char)
  {
    c == '\\' || c == '*' || c == '+' || c == '?' || c == '|' || c == '{' ||
    c == '[' || c == '(' || c == ')' || c == '^' || c == '$' || c == '.'
  }

  /** A pattern whose regular-expression translation treats every character
      other than the two jokers literally. A pattern without jokers is never
      translated, so any character may appear in it. */
  predicate SafePattern(pattern: string)
  {
    HasWildcard(pattern) ==> forall c :: c in pattern ==> !IsRegexMeta(c)
  }

  /** The text the pattern becomes before it is compiled: every '%' becomes
      ".*", then every '_' becomes ".". */
  function GetRegExpPattern(pattern: string): (r: string)
    ensures '%' !in r && '_' !in r
  {
    ReplaceAll(ReplaceAll(pattern, '%', ".*"), '_', ".")
  }

  /** String.Replace of one character by a string. */
  function ReplaceAll(s: string, c: char, repl: string): (r: string)
    ensures c !in repl ==> c !in r
    ensures forall x :: x in r ==> x in s || x in repl
    decreases |s|
  {
    if s == [] then []
    else (if s[0] == c then repl else [s[0]]) + ReplaceAll(s[1..], c, repl)
  }

  /** Reads a translated pattern back: ".*" is '%', a lone '.' is '_'. */
  function FromRegExp(r: string): string
    decreases |r|
  {
    if r == [] then []
    else if r[0] == '.' && |r| >= 2 && r[1] == '*' then ['%'] + FromRegExp(r[2..])
    else if r[0] == '.' then ['_'] + FromRegExp(r[1..])
    else [r[0]] + FromRegExp(r[1..])
  }

  /** For a pattern without '.' and '*', the translation loses nothing:
      reading it back gives the pattern. */
  lemma {:induction false} RegExpPatternRoundTrip(pattern: string)
    requires '.' !in pattern && '*' !in pattern
    ensures FromRegExp(GetRegExpPattern(pattern)) == pattern
  {
    TranslateAtOnce(pattern);
    FromTranslated(pattern);
  }

  /** The translation in one pass, character by character. */
  function Translated(p: string): string
    decreases |p|
  {
    if p == [] then []
    else (if p[0] == '%' then ".*" else if p[0] == '_' then "." else [p[0]]) + Translated(p[1..])
  }

  lemma {:induction false} TranslateAtOnce(p: string)
    ensures GetRegExpPattern(p) == Translated(p)
    decreases |p|
  {
    if p != [] {
      TranslateAtOnce(p[1..]);
      ReplaceAppend(if p[0] == '%' then ".*" else [p[0]], ReplaceAll(p[1..], '%', ".*"), '_', ".");
    }
  }

  lemma {:induction false} ReplaceAppend(a: string, b: string, c: char, repl: string)
    ensures ReplaceAll(a + b, c, repl) == ReplaceAll(a, c, repl) + ReplaceAll(b, c, repl)
    decreases |a|
  {
    if a == [] {
      assert a + b == b;
    } else {
      assert (a + b)[0] == a[0];
      assert (a + b)[1..] == a[1..] + b;
      ReplaceAppend(a[1..], b, c, repl);
    }
  }

  lemma {:induction false} FromTranslated(p: string)
    requires '.' !in p && '*' !in p
    ensures FromRegExp(Translated(p)) == p
    decreases |p|
  {
    if p != [] {
      FromTranslated(p[1..]);
      var t := Translated(p[1..]);
      if p[0] == '%' {
        assert (".*" + t)[2..] == t;
      } else if p[0] == '_' {
        assert ("." + t)[1..] == t;
        assert t == [] || t[0] != '*' by {
          if t != [] { TranslatedHead(p[1..]); }
        }
      } else {
        assert ([p[0]] + t)[1..] == t;
      }
    }
  }

  /** A translated pattern starts with '*' only if the pattern does. */
  lemma TranslatedHead(p: string)
    requires Translated(p) != []
    ensures Translated(p)[0] == '*' ==> p[0] == '*'
  {
  }

  /** The anchored match "^r$" of a translated pattern r, with
      RegexOptions.IgnoreCase: ".*" consumes any run of characters and "."
      exactly one ('.' in .NET does not match a line feed); every other
      character matches itself ignoring case; the match spans the whole
      name. */
  function AnchoredMatch(name: string, r: string): bool
    decreases |r| + |name|
  {
    if r == [] then name == []
    else if r[0] == '.' && |r| >= 2 && r[1] == '*' then
      AnchoredMatch(name, r[2..]) ||
      (name != [] && name[0] != '\n' && AnchoredMatch(name[1..], r))
    else
      name != [] &&
      (if r[0] == '.' then name[0] != '\n' else Fold(name[0]) == Fold(r[0])) &&
      AnchoredMatch(name[1..], r[1..])
  }

  /** Regex.IsMatch for "^" + r + "$": .NET's '$' also matches just before
      a final line feed, so a name ending in "\n" matches when the rest does. */
  predicate RegexIsMatch(name: string, r: string)
  {
    AnchoredMatch(name, r) ||
    (name != [] && name[|name| - 1] == '\n' && AnchoredMatch(name[..|name| - 1], r))
  }

  /** The same match read off the untranslated pattern: '%' consumes any
      run of characters and '_' exactly one, other characters match
      themselves ignoring case. */
  function WildMatch(name: string, pattern: string): bool
    decreases |pattern| + |name|
  {
    if pattern == [] then name == []
    else if pattern[0] == '%' then
      WildMatch(name, pattern[1..]) ||
      (name != [] && name[0] != '\n' && WildMatch(name[1..], pattern))
    else
      name != [] &&
      (if pattern[0] == '_' then name[0] != '\n' else Fold(name[0]) == Fold(pattern[0])) &&
      WildMatch(name[1..], pattern[1..])
  }

  /** Matching the translation of a pattern without '.' and '*' is matching
      the pattern's jokers directly. */
  lemma {:induction false} WildMatchIsAnchoredMatch(name: string, p: string)
    requires '.' !in p && '*' !in p
    ensures WildMatch(name, p) == AnchoredMatch(name, GetRegExpPattern(p))
  {
    TranslateAtOnce(p);
    WildMatchIsTranslatedMatch(name, p);
  }

  lemma {:induction false} WildMatchIsTranslatedMatch(name: string, p: string)
    requires '.' !in p && '*' !in p
    ensures WildMatch(name, p) == AnchoredMatch(name, Translated(p))
    decreases |p| + |name|
  {
    if p != [] {
      var t := Translated(p[1..]);
      var r := Translated(p);
      if p[0] == '%' {
        assert r == ".*" + t;
        assert r[2..] == t;
        WildMatchIsTranslatedMatch(name, p[1..]);
        if name != [] {
          WildMatchIsTranslatedMatch(name[1..], p);
        }
      } else if p[0] == '_' {
        assert r == "." + t;
        assert r[1..] == t;
        if t != [] {
          TranslatedHead(p[1..]);
          assert p[1..][0] in p;
        }
        if name != [] {
          WildMatchIsTranslatedMatch(name[1..], p[1..]);
        }
      } else {
        assert r == [p[0]] + t;
        assert r[1..] == t;
        if name != [] {
          WildMatchIsTranslatedMatch(name[1..], p[1..]);
        }
      }
    }
  }

  /** PatternMatchApplicationName: a joker pattern is translated and matched
      as the regular expression "^R$" ignoring case; any other pattern is
      compared for equality ignoring case. Either way the name matches when
      the pattern's jokers and characters cover it exactly, and a joker
      pattern also matches a name that does so once its final line feed is
      dropped. */
  predicate PatternMatchApplicationName(applicationName: string, pattern: string)
    requires SafePattern(pattern)
    ensures PatternMatchApplicationName(applicationName, pattern) <==>
      WildMatch(applicationName, pattern) ||
      (HasWildcard(pattern) && applicationName != [] && applicationName[|applicationName| - 1] == '\n' &&
       WildMatch(applicationName[..|applicationName| - 1], pattern))
  {
    if HasWildcard(pattern) then
      WildMatchIsAnchoredMatch(applicationName, pattern);
      if applicationName != [] then
        WildMatchIsAnchoredMatch(applicationName[..|applicationName| - 1], pattern);
        RegexIsMatch(applicationName, GetRegExpPattern(pattern))
      else
        RegexIsMatch(applicationName, GetRegExpPattern(pattern))
    else
      LiteralPatternMatch(applicationName, pattern);
      EqualsIgnoreCase(applicationName, pattern)
  }

  /** Without jokers the wildcard matcher is equality ignoring case, so the
      source's two branches agree on such patterns. */
  lemma {:induction false} LiteralPatternMatch(name: string, pattern: string)
    requires !HasWildcard(pattern)
    ensures WildMatch(name, pattern) <==> EqualsIgnoreCase(name, pattern)
    decreases |pattern|
  {
    if pattern != [] && name != [] {
      LiteralPatternMatch(name[1..], pattern[1..]);
      if EqualsIgnoreCase(name, pattern) {
        assert forall i :: 0 <= i < |name| - 1 ==> name[1..][i] == name[i + 1];
      }
      if WildMatch(name, pattern) {
        forall i | 0 <= i < |name|
          ensures Fold(name[i]) == Fold(pattern[i])
        {
          if i > 0 { assert name[1..][i - 1] == name[i]; }
        }
      }
    }
  }

  /** A pattern made of literals and '_' matches only names of its own length. */
  lemma {:induction false} NoPercentFixesLength(name: string, pattern: string)
    requires '%' !in pattern
    requires WildMatch(name, pattern)
    ensures |name| == |pattern|
    decreases |pattern|
  {
    if pattern != [] {
      NoPercentFixesLength(name[1..], pattern[1..]);
    }
  }

  /** '%' consumes zero or more characters (none a line feed): a leading
      '%' matches exactly when some prefix can be skipped and the rest of the
      pattern matches what follows. */
  lemma {:induction false} PercentSkipsAnyPrefix(name: string, rest: string)
    ensures WildMatch(name, ['%'] + rest) <==>
      exists k :: 0 <= k <= |name| && '\n' !in name[..k] && WildMatch(name[k..], rest)
    decreases |name|
  {
    var p := ['%'] + rest;
    assert p[1..] == rest;
    if WildMatch(name, p) {
      if WildMatch(name, rest) {
        assert name[0..] == name && name[..0] == [];
      } else {
        PercentSkipsAnyPrefix(name[1..], rest);
        var k :| 0 <= k <= |name[1..]| && '\n' !in name[1..][..k] && WildMatch(name[1..][k..], rest);
        assert name[k + 1..] == name[1..][k..];
        assert name[..k + 1] == [name[0]] + name[1..][..k];
      }
    }
    if exists k :: 0 <= k <= |name| && '\n' !in name[..k] && WildMatch(name[k..], rest) {
      var k :| 0 <= k <= |name| && '\n' !in name[..k] && WildMatch(name[k..], rest);
      if k > 0 {
        assert name[1..][k - 1..] == name[k..];
        assert name[1..][..k - 1] == name[..k][1..];
        assert name[0] == name[..k][0];
        PercentSkipsAnyPrefix(name[1..], rest);
      }
    }
  }

  /** The documented example for '%': "Foo%Bar" matches "Foo123Bar". */
  lemma PercentExample()
    ensures PatternMatchApplicationName("Foo123Bar", "Foo%Bar")
  {
    assert WildMatch("Bar", "Bar");
    assert WildMatch("3Bar", "%Bar");
    assert WildMatch("23Bar", "%Bar");
    assert WildMatch("123Bar", "%Bar");
    assert WildMatch("Foo123Bar", "Foo%Bar");
  }

  /** The documented example for '_': "Foo_Bar" matches "FooXBar". */
  lemma UnderscoreExample()
    ensures PatternMatchApplicationName("FooXBar", "Foo_Bar")
  {
    assert WildMatch("XBar", "_Bar");
    assert WildMatch("FooXBar", "Foo_Bar");
  }

  /** '_' needs exactly one character: "Foo_Bar" does not match "FooBar". */
  lemma UnderscoreNeedsOneCharacter()
    ensures !PatternMatchApplicationName("FooBar", "Foo_Bar")
  {
    if WildMatch("FooBar", "Foo_Bar") {
      NoPercentFixesLength("FooBar", "Foo_Bar");
    }
  }
}
