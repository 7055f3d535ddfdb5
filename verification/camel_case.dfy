/** The key rewriting of the Firefox Profiler reporters: `snake_to_camel`,
    `deep_transform_keys`, `deep_camelize_keys` and `deep_intize_keys`
    (`lib/pf2/reporter/firefox_profiler.rb`, whose helpers the ser2
    reporter calls, and the identical `snake_to_camel` and
    `deep_camelize_keys` of `lib/pf2/reporter.rb`). Letters are ASCII:
    `capitalize` changes only `a`-`z` and `A`-`Z`. */
module CamelCase {
  import opened Wrappers
  import opened RubyValue

  predicate IsLower(c: char) { 'a' <= c <= 'z' }
  predicate IsUpper(c: char) { 'A' <= c <= 'Z' }
  predicate IsDigit(c: char) { '0' <= c <= '9' }

  /** `upcase` of one character (ASCII letters only). */
  function Upcase(c: char): (u: char)
    ensures IsLower(c) ==> IsUpper(u) && Downcase(u) == c
    ensures !IsLower(c) ==> u == c
  {
    if IsLower(c) then (c as int - 32) as char else c
  }

  /** `downcase` of one character (ASCII letters only). */
  function Downcase(c: char): (d: char)
    ensures IsUpper(c) ==> IsLower(d)
    ensures !IsUpper(c) ==> d == c
  {
    if IsUpper(c) then (c as int + 32) as char else c
  }

  /** `downcase` of a string, character by character. */
  function DowncaseAll(s: string): (r: string)
    ensures |r| == |s| && forall i :: 0 <= i < |s| ==> r[i] == Downcase(s[i])
  {
    seq(|s|, i requires 0 <= i < |s| => Downcase(s[i]))
  }

  /** `String#capitalize`: the first character upper case, the others
      lower case. */
  function Capitalize(s: string): (r: string)
    ensures |r| == |s|
    ensures |s| > 0 ==> r[0] == Upcase(s[0]) && r[1..] == DowncaseAll(s[1..])
  {
    if |s| == 0 then "" else [Upcase(s[0])] + DowncaseAll(s[1..])
  }

  /** The pieces between underscores, empty ones included: `n`
      underscores make `n + 1` pieces. */
  function Fields(s: string): (f: seq<string>)
    ensures |f| >= 1
    ensures forall i :: 0 <= i < |f| ==> '_' !in f[i]
    decreases |s|
  {
    if |s| == 0 then [""]
    else
      var rest := Fields(s[1..]);
      if s[0] == '_' then [""] + rest
      else [[s[0]] + rest[0]] + rest[1..]
  }

  /** Drop the empty pieces at the end, as `String#split` does. */
  function TrimTrailingEmpty(f: seq<string>): (r: seq<string>)
    ensures |r| <= |f| && r == f[..|r|]
    ensures |r| > 0 ==> r[|r| - 1] != ""
    ensures forall i :: |r| <= i < |f| ==> f[i] == ""
    decreases |f|
  {
    if |f| == 0 then []
    else if f[|f| - 1] == "" then TrimTrailingEmpty(f[..|f| - 1])
    else f
  }

  /** `s.split('_')`. */
  function Split(s: string): seq<string> {
    TrimTrailingEmpty(Fields(s))
  }

  /** The pieces capitalized and concatenated: what the `inject` adds
      after the first piece. */
  function CapitalizedTail(pieces: seq<string>): string
    decreases |pieces|
  {
    if |pieces| == 0 then "" else Capitalize(pieces[0]) + CapitalizedTail(pieces[1..])
  }

  /** `snake_to_camel`: three fixed spellings, otherwise the first piece as
      it is and every later piece capitalized. */
  function SnakeToCamel(s: string): (r: string)
    ensures s == "is_js" ==> r == "isJS"
    ensures s == "relevant_for_js" ==> r == "relevantForJS"
    ensures s == "inner_window_id" ==> r == "innerWindowID"
    ensures '_' !in s ==> r == s
  {
    if s == "is_js" then "isJS"
    else if s == "relevant_for_js" then "relevantForJS"
    else if s == "inner_window_id" then "innerWindowID"
    else
      var pieces := Split(s);
      NoUnderscoreSplit(s);
      if |pieces| == 0 then "" else pieces[0] + CapitalizedTail(pieces[1..])
  }

  /** A string without underscores splits into itself (nothing, if it is
      empty). */
  lemma {:induction false} NoUnderscoreSplit(s: string)
    ensures '_' !in s ==> Split(s) == (if s == "" then [] else [s])
  {
    if '_' !in s {
      NoUnderscoreFields(s);
    }
  }

  /** A string without underscores is a single piece. */
  lemma {:induction false} NoUnderscoreFields(s: string)
    requires '_' !in s
    ensures Fields(s) == [s]
    decreases |s|
  {
    if |s| > 0 {
      assert '_' !in s[1..] by { assert forall i :: 0 <= i < |s| - 1 ==> s[1..][i] == s[i + 1]; }
      NoUnderscoreFields(s[1..]);
      assert [s[0]] + s[1..] == s;
    }
  }

  /** Lower-case letters and digits only. */
  predicate LowerWord(p: string) {
    forall j :: 0 <= j < |p| ==> IsLower(p[j]) || IsDigit(p[j])
  }

  /** A snake_case name: non-empty `LowerWord`s joined by single
      underscores, every piece after the first starting with a letter. */
  predicate SnakePieces(pieces: seq<string>) {
    && |pieces| >= 1
    && |pieces[0]| > 0 && LowerWord(pieces[0])
    && (forall i :: 1 <= i < |pieces| ==> LaterWord(pieces[i]))
  }

  /** A piece after the first: a `LowerWord` starting with a letter. */
  predicate LaterWord(p: string) {
    |p| > 0 && IsLower(p[0]) && LowerWord(p)
  }

  /** The pieces joined with underscores. */
  function JoinSnake(pieces: seq<string>): string
    requires |pieces| >= 1
    decreases |pieces|
  {
    if |pieces| == 1 then pieces[0] else pieces[0] + "_" + JoinSnake(pieces[1..])
  }

  /** The inverse spelling: every upper-case letter becomes an underscore
      and its lower-case letter. */
  function CamelToSnake(s: string): string
    decreases |s|
  {
    if |s| == 0 then "" else Uncapital(s[0]) + CamelToSnake(s[1..])
  }

  function Uncapital(c: char): string {
    if IsUpper(c) then "_" + [Downcase(c)] else [c]
  }

  /** Putting underscores back works piece by piece. */
  lemma {:induction false} CamelToSnakeAppend(a: string, b: string)
    ensures CamelToSnake(a + b) == CamelToSnake(a) + CamelToSnake(b)
    decreases |a|
  {
    if |a| > 0 {
      CamelToSnakeAppend(a[1..], b);
      assert (a + b)[0] == a[0];
      assert (a + b)[1..] == a[1..] + b;
      calc {
        CamelToSnake(a + b);
        Uncapital(a[0]) + CamelToSnake(a[1..] + b);
        Uncapital(a[0]) + (CamelToSnake(a[1..]) + CamelToSnake(b));
        (Uncapital(a[0]) + CamelToSnake(a[1..])) + CamelToSnake(b);
      }
    } else {
      assert a + b == b;
    }
  }

  /** A lower-case word has no capitals to rewrite. */
  lemma {:induction false} CamelToSnakeOfLower(s: string)
    requires LowerWord(s)
    ensures CamelToSnake(s) == s
    decreases |s|
  {
    if |s| > 0 {
      assert IsLower(s[0]) || IsDigit(s[0]);
      assert LowerWord(s[1..]) by {
        forall j | 0 <= j < |s| - 1 ensures IsLower(s[1..][j]) || IsDigit(s[1..][j]) { assert s[1..][j] == s[j + 1]; }
      }
      CamelToSnakeOfLower(s[1..]);
      assert [s[0]] + s[1..] == s;
    }
  }

  /** A lower-case word has no underscore. */
  lemma LowerWordNoUnderscore(p: string)
    requires LowerWord(p)
    ensures '_' !in p
  {
    forall j | 0 <= j < |p| ensures p[j] != '_' { assert IsLower(p[j]) || IsDigit(p[j]); }
  }

  /** Splitting `a_b` gives `a` and then the pieces of `b`. */
  lemma {:induction false} FieldsOfJoin(a: string, b: string)
    requires '_' !in a
    ensures Fields(a + "_" + b) == [a] + Fields(b)
    decreases |a|
  {
    if |a| == 0 {
      assert a + "_" + b == "_" + b;
      assert ("_" + b)[1..] == b;
    } else {
      assert '_' !in a[1..] by { assert forall i :: 0 <= i < |a| - 1 ==> a[1..][i] == a[i + 1]; }
      FieldsOfJoin(a[1..], b);
      assert (a + "_" + b)[1..] == a[1..] + "_" + b;
      assert [a[0]] + a[1..] == a;
    }
  }

  /** The underscore join of snake_case pieces splits back into them. */
  lemma {:induction false} SplitJoinSnake(pieces: seq<string>)
    requires SnakePieces(pieces)
    ensures Fields(JoinSnake(pieces)) == pieces
    decreases |pieces|
  {
    var p := pieces[0];
    LowerWordNoUnderscore(p);
    if |pieces| == 1 {
      NoUnderscoreFields(p);
    } else {
      assert SnakePieces(pieces[1..]) by {
        assert forall i :: 0 <= i < |pieces| - 1 ==> pieces[1..][i] == pieces[i + 1];
      }
      SplitJoinSnake(pieces[1..]);
      FieldsOfJoin(p, JoinSnake(pieces[1..]));
      assert [p] + pieces[1..] == pieces;
    }
  }

  /** Concatenation regroups. */
  lemma Assoc(a: string, b: string, c: string)
    ensures (a + b) + c == a + (b + c)
  {
  }

  /** A word starting with a lower-case letter, capitalized, spells back
      as an underscore and the word. */
  lemma CapitalizedWordBack(p: string)
    requires LaterWord(p)
    ensures CamelToSnake(Capitalize(p)) == "_" + p
  {
    var c := Capitalize(p);
    var tail := p[1..];
    assert LowerWord(tail) by {
      forall j | 0 <= j < |tail| ensures IsLower(tail[j]) || IsDigit(tail[j]) { assert tail[j] == p[j + 1]; }
    }
    assert DowncaseAll(tail) == tail;
    assert c[1..] == tail;
    CamelToSnakeOfLower(tail);
    assert [p[0]] + tail == p;
  }

  /** Every capitalized later piece spells back as an underscore and the piece. */
  lemma {:induction false} UnderscoresBack(pieces: seq<string>)
    requires |pieces| >= 1
    requires forall i :: 0 <= i < |pieces| ==> LaterWord(pieces[i])
    ensures "_" + JoinSnake(pieces) == CamelToSnake(CapitalizedTail(pieces))
    decreases |pieces|
  {
    var p := pieces[0];
    CapitalizedWordBack(p);
    var more := pieces[1..];
    var rest := CapitalizedTail(more);
    assert CapitalizedTail(pieces) == Capitalize(p) + rest;
    CamelToSnakeAppend(Capitalize(p), rest);
    assert CamelToSnake(CapitalizedTail(pieces)) == "_" + p + CamelToSnake(rest);
    if |pieces| > 1 {
      assert forall i :: 0 <= i < |more| ==> more[i] == pieces[i + 1];
      UnderscoresBack(more);
      var j := JoinSnake(more);
      assert JoinSnake(pieces) == p + "_" + j;
      assert CamelToSnake(rest) == "_" + j;
      Assoc("_", p + "_", j);
      Assoc("_", p, "_");
      Assoc("_" + p, "_", j);
      calc {
        "_" + JoinSnake(pieces);
        "_" + ((p + "_") + j);
        ("_" + (p + "_")) + j;
        (("_" + p) + "_") + j;
        ("_" + p) + ("_" + j);
      }
    } else {
      assert rest == "";
    }
  }

  /** A snake_case name splits into its pieces, so `snake_to_camel` keeps
      the first and capitalizes the others. */
  lemma SnakeToCamelOfPieces(pieces: seq<string>)
    requires SnakePieces(pieces)
    requires JoinSnake(pieces) !in {"is_js", "relevant_for_js", "inner_window_id"}
    ensures SnakeToCamel(JoinSnake(pieces)) == pieces[0] + CapitalizedTail(pieces[1..])
  {
    SplitJoinSnake(pieces);
    assert TrimTrailingEmpty(pieces) == pieces;
  }

  /** For a snake_case name other than the three fixed ones, putting the
      underscores back before the capitals recovers the name:
      `snake_to_camel` loses nothing. */
  lemma SnakeToCamelRoundTrip(pieces: seq<string>)
    requires SnakePieces(pieces)
    requires JoinSnake(pieces) !in {"is_js", "relevant_for_js", "inner_window_id"}
    ensures '_' !in SnakeToCamel(JoinSnake(pieces))
    ensures CamelToSnake(SnakeToCamel(JoinSnake(pieces))) == JoinSnake(pieces)
  {
    SnakeToCamelOfPieces(pieces);
    var tail := pieces[1..];
    assert forall i :: 0 <= i < |tail| ==> tail[i] == pieces[i + 1];
    HeadAndTailBack(pieces[0], tail);
    if |pieces| > 1 {
      assert JoinSnake(pieces) == pieces[0] + "_" + JoinSnake(tail);
    }
  }

  /** The first piece followed by the capitalized later pieces spells back as their underscore join. */
  lemma HeadAndTailBack(p: string, tail: seq<string>)
    requires LowerWord(p)
    requires forall i :: 0 <= i < |tail| ==> LaterWord(tail[i])
    ensures '_' !in p + CapitalizedTail(tail)
    ensures |tail| == 0 ==> CamelToSnake(p + CapitalizedTail(tail)) == p
    ensures |tail| > 0 ==> CamelToSnake(p + CapitalizedTail(tail)) == p + "_" + JoinSnake(tail)
  {
    var camel := CapitalizedTail(tail);
    CamelToSnakeOfLower(p);
    LowerWordNoUnderscore(p);
    CamelToSnakeAppend(p, camel);
    NoUnderscoreInCamel(tail);
    if |tail| > 0 {
      UnderscoresBack(tail);
      var j := JoinSnake(tail);
      Assoc(p, "_", j);
    } else {
      assert camel == "";
      assert p + camel == p;
    }
  }

  /** Capitalized pieces have no underscore. */
  lemma {:induction false} NoUnderscoreInCamel(pieces: seq<string>)
    requires forall i :: 0 <= i < |pieces| ==> LaterWord(pieces[i])
    ensures '_' !in CapitalizedTail(pieces)
    decreases |pieces|
  {
    if |pieces| > 0 {
      NoUnderscoreInCamel(pieces[1..]);
      var p := pieces[0];
      var c := Capitalize(p);
      assert '_' !in c by {
        forall j | 0 <= j < |c| ensures c[j] != '_' {
          assert IsLower(p[j]) || IsDigit(p[j]);
          if j == 0 { assert c[0] == Upcase(p[0]); } else { assert c[j] == DowncaseAll(p[1..])[j - 1]; }
        }
      }
    }
  }

  /** `Hash[pairs]`: a repeated key keeps its first position and takes the
      last value. */
  function HashFromPairs(pairs: seq<(RValue, RValue)>): (entries: seq<(RValue, RValue)>)
    decreases |pairs|
  {
    if |pairs| == 0 then []
    else
      var front := HashFromPairs(pairs[..|pairs| - 1]);
      var (k, v) := pairs[|pairs| - 1];
      Store(front, k, v)
  }

  /** `hash[k] = v`: replace the value of an existing key in place, or
      append. */
  function Store(entries: seq<(RValue, RValue)>, k: RValue, v: RValue): (r: seq<(RValue, RValue)>)
    ensures (forall i :: 0 <= i < |entries| ==> entries[i].0 != k) ==> r == entries + [(k, v)]
    ensures (exists i :: 0 <= i < |entries| && entries[i].0 == k) ==> |r| == |entries|
    decreases |entries|
  {
    if |entries| == 0 then [(k, v)]
    else if entries[0].0 == k then [(k, v)] + entries[1..]
    else [entries[0]] + Store(entries[1..], k, v)
  }

  predicate DistinctKeys(entries: seq<(RValue, RValue)>) {
    forall i, j :: 0 <= i < j < |entries| ==> entries[i].0 != entries[j].0
  }

  /** Pairs with distinct keys make a hash of exactly those pairs. */
  lemma {:induction false} HashFromDistinctPairs(pairs: seq<(RValue, RValue)>)
    requires DistinctKeys(pairs)
    ensures HashFromPairs(pairs) == pairs
    decreases |pairs|
  {
    if |pairs| > 0 {
      var front := pairs[..|pairs| - 1];
      assert DistinctKeys(front);
      HashFromDistinctPairs(front);
      var (k, v) := pairs[|pairs| - 1];
      assert forall i :: 0 <= i < |front| ==> front[i].0 != k by {
        forall i | 0 <= i < |front| ensures front[i].0 != k { assert front[i] == pairs[i]; }
      }
      assert front + [pairs[|pairs| - 1]] == pairs;
    }
  }

  /** Every hash in the value has distinct keys, as Ruby hashes do. */
  predicate WellFormed(v: RValue)
    decreases v
  {
    match v
    case Array(items) => forall i :: 0 <= i < |items| ==> WellFormed(items[i])
    case Hash(entries) => DistinctKeys(entries) && forall i :: 0 <= i < |entries| ==> WellFormed(entries[i].1)
    case _ => true
  }

  /** `deep_transform_keys`: arrays element by element, hashes with every
      key passed through `f` and every value transformed, anything else
      unchanged. Keys themselves are not descended into. */
  function DeepTransformKeys(v: RValue, f: RValue -> RValue): (r: RValue)
    ensures !v.Array? && !v.Hash? ==> r == v
    ensures v.Array? ==> r.Array? && |r.items| == |v.items|
    ensures v.Hash? ==> r.Hash? && |r.entries| <= |v.entries|
    decreases v
  {
    match v
    case Array(items) => Array(seq(|items|, i requires 0 <= i < |items| => DeepTransformKeys(items[i], f)))
    case Hash(entries) =>
      var pairs := seq(|entries|, i requires 0 <= i < |entries| => (f(entries[i].0), DeepTransformKeys(entries[i].1, f)));
      HashFromPairsLength(pairs);
      Hash(HashFromPairs(pairs))
    case _ => v
  }

  /** `Hash[pairs]` never has more entries than pairs. */
  lemma {:induction false} HashFromPairsLength(pairs: seq<(RValue, RValue)>)
    ensures |HashFromPairs(pairs)| <= |pairs|
    decreases |pairs|
  {
    if |pairs| > 0 {
      HashFromPairsLength(pairs[..|pairs| - 1]);
    }
  }

  /** Rewriting the keys with `f` and then with a left inverse `g` of `f`
      gives the value back: the rewrite changes the keys and nothing
      else. */
  lemma {:induction false} TransformRoundTrip(v: RValue, f: RValue -> RValue, g: RValue -> RValue)
    requires WellFormed(v)
    requires forall k :: g(f(k)) == k
    ensures DeepTransformKeys(DeepTransformKeys(v, f), g) == v
    decreases v
  {
    match v
    case Array(items) =>
      var once := DeepTransformKeys(v, f);
      forall i | 0 <= i < |items|
        ensures DeepTransformKeys(once.items[i], g) == items[i]
      {
        TransformRoundTrip(items[i], f, g);
      }
    case Hash(entries) =>
      forall i | 0 <= i < |entries|
        ensures DeepTransformKeys(DeepTransformKeys(entries[i].1, f), g) == entries[i].1
      {
        TransformRoundTrip(entries[i].1, f, g);
      }
      TransformHashRoundTrip(entries, f, g);
    case _ =>
  }

  /** The hash case of the round trip, given it for every value. */
  lemma TransformHashRoundTrip(entries: seq<(RValue, RValue)>, f: RValue -> RValue, g: RValue -> RValue)
    requires WellFormed(Hash(entries))
    requires forall k :: g(f(k)) == k
    requires forall i :: 0 <= i < |entries| ==> DeepTransformKeys(DeepTransformKeys(entries[i].1, f), g) == entries[i].1
    ensures DeepTransformKeys(DeepTransformKeys(Hash(entries), f), g) == Hash(entries)
  {
    var pairs := seq(|entries|, i requires 0 <= i < |entries| => (f(entries[i].0), DeepTransformKeys(entries[i].1, f)));
    assert DistinctKeys(pairs) by {
      forall i, j | 0 <= i < j < |entries| ensures pairs[i].0 != pairs[j].0 {
        assert g(pairs[i].0) == entries[i].0 && g(pairs[j].0) == entries[j].0;
      }
    }
    HashFromDistinctPairs(pairs);
    var back := seq(|pairs|, i requires 0 <= i < |pairs| => (g(pairs[i].0), DeepTransformKeys(pairs[i].1, g)));
    assert back == entries;
    HashFromDistinctPairs(entries);
  }

  /** `deep_camelize_keys`: every key becomes the symbol of its camelCase
      spelling. */
  function DeepCamelizeKeys(v: RValue): RValue {
    DeepTransformKeys(v, k => Sym(SnakeToCamel(ToS(k))))
  }

  /** Every key of the entries is a symbol. */
  predicate SymbolKeys(entries: seq<(RValue, RValue)>) {
    forall i :: 0 <= i < |entries| ==> entries[i].0.Sym?
  }

  /** Storing under a symbol keeps every key a symbol. */
  lemma {:induction false} StoreSymbolKeys(entries: seq<(RValue, RValue)>, k: RValue, v: RValue)
    requires SymbolKeys(entries) && k.Sym?
    ensures SymbolKeys(Store(entries, k, v))
    decreases |entries|
  {
    if |entries| > 0 && entries[0].0 != k {
      StoreSymbolKeys(entries[1..], k, v);
    }
  }

  /** `Hash[pairs]` over pairs keyed by symbols has only symbol keys. */
  lemma {:induction false} HashFromPairsSymbolKeys(pairs: seq<(RValue, RValue)>)
    requires SymbolKeys(pairs)
    ensures SymbolKeys(HashFromPairs(pairs))
    decreases |pairs|
  {
    if |pairs| > 0 {
      var front := pairs[..|pairs| - 1];
      HashFromPairsSymbolKeys(front);
      StoreSymbolKeys(HashFromPairs(front), pairs[|pairs| - 1].0, pairs[|pairs| - 1].1);
    }
  }

  /** `deep_camelize_keys` turns every key of a hash into a symbol
      (`.to_sym`), whatever the key was, and the camelCase spelling of
      its `to_s`. */
  lemma CamelizedKeysAreSymbols(entries: seq<(RValue, RValue)>)
    ensures var r := DeepCamelizeKeys(Hash(entries));
      && r.Hash? && SymbolKeys(r.entries)
      && forall i :: 0 <= i < |r.entries| ==> exists j :: 0 <= j < |entries| && r.entries[i].0 == Sym(SnakeToCamel(ToS(entries[j].0)))
  {
    var f := k => Sym(SnakeToCamel(ToS(k)));
    var pairs := seq(|entries|, i requires 0 <= i < |entries| => (f(entries[i].0), DeepTransformKeys(entries[i].1, f)));
    HashFromPairsSymbolKeys(pairs);
    HashFromPairsKeys(pairs);
  }

  /** Every key of `Hash[pairs]` is the key of some pair. */
  lemma {:induction false} HashFromPairsKeys(pairs: seq<(RValue, RValue)>)
    ensures forall i :: 0 <= i < |HashFromPairs(pairs)| ==> exists j :: 0 <= j < |pairs| && HashFromPairs(pairs)[i].0 == pairs[j].0
    decreases |pairs|
  {
    if |pairs| > 0 {
      var front := pairs[..|pairs| - 1];
      HashFromPairsKeys(front);
      var last := pairs[|pairs| - 1];
      StoreKeys(HashFromPairs(front), last.0, last.1);
      var r := HashFromPairs(pairs);
      assert r == Store(HashFromPairs(front), last.0, last.1);
      forall i | 0 <= i < |r|
        ensures exists j :: 0 <= j < |pairs| && r[i].0 == pairs[j].0
      {
        if r[i].0 == last.0 {
          assert r[i].0 == pairs[|pairs| - 1].0;
        } else {
          var j :| 0 <= j < |HashFromPairs(front)| && r[i].0 == HashFromPairs(front)[j].0;
          var j' :| 0 <= j' < |front| && HashFromPairs(front)[j].0 == front[j'].0;
          assert r[i].0 == pairs[j'].0;
        }
      }
    } else {
      assert HashFromPairs(pairs) == [];
    }
  }

  /** Storing adds no key but the one stored. */
  lemma {:induction false} StoreKeys(entries: seq<(RValue, RValue)>, k: RValue, v: RValue)
    ensures forall i :: 0 <= i < |Store(entries, k, v)| ==>
      Store(entries, k, v)[i].0 == k || exists j :: 0 <= j < |entries| && Store(entries, k, v)[i].0 == entries[j].0
    decreases |entries|
  {
    if |entries| > 0 && entries[0].0 != k {
      StoreKeys(entries[1..], k, v);
      var r := Store(entries, k, v);
      forall i | 0 <= i < |r|
        ensures r[i].0 == k || exists j :: 0 <= j < |entries| && r[i].0 == entries[j].0
      {
        if i > 0 && r[i].0 != k {
          var j :| 0 <= j < |entries[1..]| && r[i].0 == entries[1..][j].0;
          assert entries[1..][j] == entries[j + 1];
        }
      }
    }
  }

  /** Whether `s` is how `to_s` writes some integer, and which: an optional
      minus sign before digits without a leading zero, and no `-0`. */
  function ParseDecimal(s: string): (r: Option<int>)
  {
    if |s| > 0 && s[0] == '-' then
      var magnitude: int := if Canonical(s[1..]) then DecimalValue(s[1..]) else 0;
      if Canonical(s[1..]) && s[1..] != "0" then Some(-magnitude) else None
    else if Canonical(s) then Some(DecimalValue(s))
    else None
  }

  /** Digits only, at least one, and no leading zero unless the number is
      zero. */
  predicate Canonical(s: string) {
    |s| > 0 && (forall i :: 0 <= i < |s| ==> IsDigit(s[i])) && (s[0] != '0' || |s| == 1)
  }

  function DecimalValue(s: string): nat
    requires forall i :: 0 <= i < |s| ==> IsDigit(s[i])
    decreases |s|
  {
    if |s| == 0 then 0
    else
      assert IsDigit(s[|s| - 1]);
      10 * DecimalValue(s[..|s| - 1]) + (s[|s| - 1] as int - '0' as int)
  }

  /** The digits of a number have no leading zero and read back as it. */
  lemma {:induction false} DigitsCanonical(n: nat)
    ensures Canonical(Digits(n)) && DecimalValue(Digits(n)) == n
    ensures Digits(n) == "0" <==> n == 0
    decreases n
  {
    if n >= 10 {
      DigitsCanonical(n / 10);
      var d := Digits(n);
      assert d[..|d| - 1] == Digits(n / 10);
    }
  }

  /** A canonical digit string is the digits of its value. */
  lemma {:induction false} CanonicalDigits(s: string)
    requires Canonical(s)
    ensures Digits(DecimalValue(s)) == s
    ensures s != "0" ==> DecimalValue(s) > 0
    decreases |s|
  {
    if |s| > 1 {
      var front := s[..|s| - 1];
      assert Canonical(front);
      CanonicalDigits(front);
      assert s == front + [s[|s| - 1]];
    }
  }

  /** A string that reads as an integer is how that integer prints. */
  lemma ParseDecimalWritten(s: string, n: int)
    requires ParseDecimal(s) == Some(n)
    ensures ToS(Int(n)) == s
  {
    if |s| > 0 && s[0] == '-' {
      CanonicalDigits(s[1..]);
      assert s == "-" + s[1..];
    } else {
      CanonicalDigits(s);
    }
  }

  /** How an integer prints reads back as it. */
  lemma ParseDecimalReads(n: int)
    ensures ParseDecimal(ToS(Int(n))) == Some(n)
  {
    var s := ToS(Int(n));
    if n < 0 {
      DigitsCanonical(-n);
      assert s[1..] == Digits(-n);
    } else {
      DigitsCanonical(n);
    }
  }

  /** `ParseDecimal` reads exactly the strings `to_s` writes for integers,
      and reads them back as those integers. */
  lemma ParseDecimalIff(s: string, n: int)
    ensures ParseDecimal(s) == Some(n) <==> ToS(Int(n)) == s
  {
    if ParseDecimal(s) == Some(n) {
      ParseDecimalWritten(s, n);
    }
    if ToS(Int(n)) == s {
      ParseDecimalReads(n);
    }
  }

  /** The key rewrite of `deep_intize_keys`: a key whose `to_s` is how some
      integer prints (`k.to_s.to_i.to_s == k.to_s`) becomes that integer;
      any other key stays. */
  function IntizeKey(k: RValue): (r: RValue)
    ensures r != k ==> r.Int? && ToS(r) == ToS(k)
    ensures r == k || r.Int?
  {
    match ParseDecimal(ToS(k))
    case Some(n) =>
      ParseDecimalIff(ToS(k), n);
      Int(n)
    case None => k
  }

  /** A key becomes an integer exactly when it prints as one. */
  lemma IntizeKeyIff(k: RValue, n: int)
    ensures IntizeKey(k) == Int(n) <==> ToS(k) == ToS(Int(n))
  {
    ParseDecimalIff(ToS(k), n);
    if k.Int? {
      ParseDecimalIff(ToS(k), k.i);
    }
  }

  /** `deep_intize_keys`. */
  function DeepIntizeKeys(v: RValue): RValue {
    DeepTransformKeys(v, IntizeKey)
  }
}
