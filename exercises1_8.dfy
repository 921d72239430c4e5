/** Level 1, file 1.8: every number contains a 3, and conversions between
    kebab-case, snake_case and camelCase. */
module Exercises1_8 {
  import opened JsValues
  import opened Decimal
  import opened Strings

  // ---------------------------------------------------------------------------
  // numbers.every(num => num.toString().includes('3'))

  /** Arithmetic reference: some decimal digit of n equals d. */
  predicate HasDigit(n: nat, d: nat)
    decreases n
  {
    n % 10 == d || (n >= 10 && HasDigit(n / 10, d))
  }

  function AllContainThree(numbers: seq<int>): (r: bool)
    ensures r <==> forall i :: 0 <= i < |numbers| ==> '3' in IntToString(numbers[i])
  {
    if numbers == [] then true
    else '3' in IntToString(numbers[0]) && AllContainThree(numbers[1..])
  }

  /** The string test agrees with the digits of the number's magnitude. */
  lemma {:induction false} ThreeInDecimal(n: nat)
    ensures '3' in NatToString(n) <==> HasDigit(n, 3)
    decreases n
  {
    if n >= 10 {
      ThreeInDecimal(n / 10);
      assert NatToString(n) == NatToString(n / 10) + [DigitChar(n % 10)];
    }
  }

  lemma ThreeInInteger(n: int)
    ensures '3' in IntToString(n) <==> HasDigit(if n < 0 then -n else n, 3)
  {
    ThreeInDecimal(if n < 0 then -n else n);
  }

  lemma AllContainThreeExample()
    ensures AllContainThree([3, 13, 23, 33, 43])
  {
    assert NatToString(13) == "13";
    assert NatToString(23) == "23";
    assert NatToString(33) == "33";
    assert NatToString(43) == "43";
  }

  // ---------------------------------------------------------------------------
  // kebabCase.replace(/-/g, '_')

  function ReplaceAll(s: string, a: char, b: char): (r: string)
    ensures |r| == |s|
    ensures forall i :: 0 <= i < |s| ==> r[i] == if s[i] == a then b else s[i]
  {
    if s == [] then [] else [if s[0] == a then b else s[0]] + ReplaceAll(s[1..], a, b)
  }

  function KebabToSnake(s: string): string
  {
    ReplaceAll(s, '-', '_')
  }

  /** No hyphen is left, and replacing back restores a string without '_'. */
  lemma KebabToSnakeInverse(s: string)
    ensures '-' !in KebabToSnake(s)
    ensures '_' !in s ==> ReplaceAll(KebabToSnake(s), '_', '-') == s
  {
    var r := KebabToSnake(s);
    assert forall i :: 0 <= i < |r| ==> r[i] != '-';
  }

  /** The replacement is splitting at '-' and joining with '_'. */
  lemma {:induction false} ReplaceIsSplitJoin(s: string, a: char, b: char)
    ensures ReplaceAll(s, a, b) == JoinWith(Split(s, a), [b])
    decreases |s|
  {
    if s != [] {
      ReplaceIsSplitJoin(s[1..], a, b);
      var rest := Split(s[1..], a);
      assert ReplaceAll(s, a, b) == [if s[0] == a then b else s[0]] + ReplaceAll(s[1..], a, b);
      if s[0] == a {
        assert Split(s, a) == [[]] + rest;
        JoinEmptyHead(rest, [b]);
      } else {
        assert Split(s, a) == [[s[0]] + rest[0]] + rest[1..];
        JoinCons(s[0], rest, [b]);
      }
    }
  }

  /** A leading empty piece joins to a leading separator. */
  lemma JoinEmptyHead(parts: seq<string>, sep: string)
    requires |parts| >= 1
    ensures JoinWith([[]] + parts, sep) == sep + JoinWith(parts, sep)
  {
    var ps := [[]] + parts;
    assert ps[1..] == parts;
    assert ps[0] + sep == sep;
  }

  /** A character added at the front of the first piece comes first in the join. */
  lemma JoinCons(c: char, parts: seq<string>, sep: string)
    requires |parts| >= 1
    ensures JoinWith([[c] + parts[0]] + parts[1..], sep) == [c] + JoinWith(parts, sep)
  {
    var ps := [[c] + parts[0]] + parts[1..];
    assert ps[0] == [c] + parts[0] && ps[1..] == parts[1..];
    if |parts| > 1 {
      var j := JoinWith(parts[1..], sep);
      assert JoinWith(ps, sep) == ([c] + parts[0]) + sep + j;
      assert ([c] + parts[0]) + sep + j == [c] + (parts[0] + sep + j);
    }
  }

  /** The replacement works piece by piece. */
  lemma {:induction false} ReplaceAllAppend(x: string, y: string, a: char, b: char)
    ensures ReplaceAll(x + y, a, b) == ReplaceAll(x, a, b) + ReplaceAll(y, a, b)
  {
    var r := ReplaceAll(x + y, a, b);
    var q := ReplaceAll(x, a, b) + ReplaceAll(y, a, b);
    assert |r| == |q|;
    forall i | 0 <= i < |r| ensures r[i] == q[i] {
      if i < |x| {
        assert (x + y)[i] == x[i];
      } else {
        assert (x + y)[i] == y[i - |x|];
      }
    }
  }

  /** A string without the character is left as it is. */
  lemma ReplaceAllAbsent(x: string, a: char, b: char)
    requires a !in x
    ensures ReplaceAll(x, a, b) == x
  {
    var r := ReplaceAll(x, a, b);
    forall i | 0 <= i < |x| ensures r[i] == x[i] {
      assert x[i] in x;
    }
  }

  lemma KebabExample(s: string, t: string)
    requires s == "kebab" && t == "case"
    ensures KebabToSnake(s + "-" + t) == s + "_" + t
  {
    assert s + "-" + t == s + ("-" + t);
    ReplaceAllAppend(s, "-" + t, '-', '_');
    ReplaceAllAppend("-", t, '-', '_');
    ReplaceAllAbsent(s, '-', '_');
    ReplaceAllAbsent(t, '-', '_');
    assert ReplaceAll("-", '-', '_') == "_";
    assert s + ("_" + t) == s + "_" + t;
  }

  // ---------------------------------------------------------------------------
  // split('_').map((word, index) => index === 0 ? word : word[0].toUpperCase() + word.slice(1)).join('')

  /** `word[0].toUpperCase() + word.slice(1)` on a non-empty word. */
  function Capitalize(word: string): string
    requires word != []
  {
    [Upper(word[0])] + word[1..]
  }

  predicate NoEmptyWord(words: seq<string>)
  {
    forall i :: 0 <= i < |words| ==> words[i] != []
  }

  function CapitalizeAll(words: seq<string>): string
    requires NoEmptyWord(words)
  {
    if words == [] then [] else Capitalize(words[0]) + CapitalizeAll(words[1..])
  }

  /** An empty word after the first makes `word[0]` undefined, and calling
      `toUpperCase` on it throws. */
  function SnakeToCamel(s: string): Result<string>
  {
    CamelOfWords(Split(s, '_'))
  }

  /** The map over the words and the join: the first word as it is, every
      later one capitalized. */
  function CamelOfWords(words: seq<string>): Result<string>
    requires |words| >= 1
  {
    if NoEmptyWord(words[1..]) then Ok(words[0] + CapitalizeAll(words[1..]))
    else Err(UpperOfUndefined)
  }

  lemma {:induction false} CapitalizeAllShape(words: seq<string>)
    requires NoEmptyWord(words)
    requires forall i :: 0 <= i < |words| ==> '_' !in words[i]
    ensures '_' !in CapitalizeAll(words)
  {
    if words != [] {
      CapitalizeAllShape(words[1..]);
      var w := words[0];
      assert w[0] != '_' by { assert w[0] in w; }
      assert Upper(w[0]) != '_';
      assert forall c :: c in w[1..] ==> c in w;
    }
  }

  /** The conversion fails exactly when the string ends in '_' or has '_' twice
      in a row; otherwise no '_' is left. */
  lemma SnakeToCamelShape(s: string)
    ensures SnakeToCamel(s).Err? <==> exists i :: 1 <= i < |Split(s, '_')| && Split(s, '_')[i] == []
    ensures SnakeToCamel(s).Ok? ==> '_' !in SnakeToCamel(s).value
  {
    var words := Split(s, '_');
    assert forall i :: 1 <= i < |words| ==> words[i] == words[1..][i - 1];
    SplitShape(s, '_');
    if NoEmptyWord(words[1..]) {
      CapitalizeAllShape(words[1..]);
    }
  }

  // ---------------------------------------------------------------------------
  // camelToSnake

  /** What the loop appends for one character. */
  function SnakeChar(c: char): string
  {
    if IsUpper(c) then ['_', Lower(c)] else [c]
  }

  /** Reference: each upper-case letter becomes '_' and its lower-case form. */
  function Snake(s: string): string
  {
    if s == [] then [] else SnakeChar(s[0]) + Snake(s[1..])
  }

  lemma {:induction false} SnakeAppend(a: string, b: string)
    ensures Snake(a + b) == Snake(a) + Snake(b)
    decreases |a|
  {
    if a == [] {
      assert a + b == b;
    } else {
      assert (a + b)[0] == a[0] && (a + b)[1..] == a[1..] + b;
      SnakeAppend(a[1..], b);
      assert Snake(a + b) == SnakeChar(a[0]) + Snake(a[1..] + b);
      assert Snake(a) == SnakeChar(a[0]) + Snake(a[1..]);
    }
  }

  method CamelToSnake(camelCase: string) returns (snakeCase: string)
    ensures snakeCase == Snake(camelCase)
  {
    snakeCase := "";
    for k := 0 to |camelCase|
      invariant snakeCase == Snake(camelCase[..k])
    {
      var c := camelCase[k];
      if c == Upper(c) && c != Lower(c) {
        snakeCase := snakeCase + "_" + [Lower(c)];
      } else {
        snakeCase := snakeCase + [c];
      }
      assert camelCase[..k + 1] == camelCase[..k] + [c];
      SnakeAppend(camelCase[..k], [c]);
    }
    assert camelCase[..|camelCase|] == camelCase;
  }

  function CountUpper(s: string): nat
  {
    if s == [] then 0 else (if IsUpper(s[0]) then 1 else 0) + CountUpper(s[1..])
  }

  /** One extra character per upper-case letter, and none is left upper-case. */
  lemma {:induction false} SnakeShape(s: string)
    ensures |Snake(s)| == |s| + CountUpper(s)
    ensures forall i :: 0 <= i < |Snake(s)| ==> !IsUpper(Snake(s)[i])
  {
    if s != [] {
      SnakeShape(s[1..]);
      CaseRoundTrip(s[0]);
      var head := SnakeChar(s[0]);
      assert forall i :: 0 <= i < |head| ==> !IsUpper(head[i]);
      assert forall i :: |head| <= i < |Snake(s)| ==> Snake(s)[i] == Snake(s[1..])[i - |head|];
    }
  }

  /** camelCase -> snake_case -> camelCase gives back any string without '_'. */
  lemma {:induction false} CamelSnakeRoundTrip(s: string)
    requires '_' !in s
    ensures SnakeToCamel(Snake(s)) == Ok(s)
    decreases |s|
  {
    if s == [] {
      assert Snake(s) == [];
      var words := Split([], '_');
      assert words == [[]] && words[1..] == [];
      assert NoEmptyWord(words[1..]);
      assert CapitalizeAll(words[1..]) == [];
      assert SnakeToCamel([]) == Ok(words[0] + CapitalizeAll(words[1..]));
      assert words[0] + CapitalizeAll(words[1..]) == [];
      assert SnakeToCamel(Snake(s)) == Ok(s);
    } else {
      var c, p := s[0], s[1..];
      assert forall x :: x in p ==> x in s;
      CamelSnakeRoundTrip(p);
      assert s == [c] + p;
      assert Snake(s) == SnakeChar(c) + Snake(p);
      CaseRoundTrip(c);
      if IsUpper(c) {
        RoundTripUpper(c, Lower(c), Snake(p), p);
      } else {
        RoundTripOther(c, Snake(p), p);
      }
    }
  }

  lemma CapitalizeAllCons(w: string, ws: seq<string>)
    requires w != [] && NoEmptyWord(ws)
    ensures NoEmptyWord([w] + ws)
    ensures CapitalizeAll([w] + ws) == Capitalize(w) + CapitalizeAll(ws)
  {
    var all := [w] + ws;
    assert all[0] == w && all[1..] == ws;
    assert forall i :: 1 <= i < |all| ==> all[i] == ws[i - 1];
  }

  /** A new empty first word, with a lower-case letter put before the old
      first word, gives that letter upper-cased in front. */
  lemma CamelWordsUpper(c: char, l: char, ws: seq<string>, p: string)
    requires |ws| >= 1 && Upper(l) == c && CamelOfWords(ws) == Ok(p)
    ensures CamelOfWords([[]] + ([[l] + ws[0]] + ws[1..])) == Ok([c] + p)
  {
    var x, lw := ws[0], [[l] + ws[0]] + ws[1..];
    assert NoEmptyWord(ws[1..]);
    var r := CapitalizeAll(ws[1..]);
    assert x + r == p;
    CapitalizeAllCons([l] + x, ws[1..]);
    var words := [[]] + lw;
    assert words[0] == [] && words[1..] == lw;
    assert Capitalize([l] + x) == [c] + x by {
      assert ([l] + x)[0] == l && ([l] + x)[1..] == x;
    }
    assert [] + (([c] + x) + r) == [c] + (x + r);
  }

  /** A character put before the first word comes first in the result. */
  lemma CamelWordsOther(c: char, ws: seq<string>, p: string)
    requires |ws| >= 1 && CamelOfWords(ws) == Ok(p)
    ensures CamelOfWords([[c] + ws[0]] + ws[1..]) == Ok([c] + p)
  {
    var words := [[c] + ws[0]] + ws[1..];
    assert words[0] == [c] + ws[0] && words[1..] == ws[1..];
    assert ([c] + ws[0]) + CapitalizeAll(ws[1..]) == [c] + (ws[0] + CapitalizeAll(ws[1..]));
  }

  /** The snake_case of an upper-case letter, '_' and the lower-case letter l,
      put in front of q, turns back into the letter c before what q gives. */
  lemma RoundTripUpper(c: char, l: char, q: string, p: string)
    requires Upper(l) == c && l != '_' && SnakeToCamel(q) == Ok(p)
    ensures SnakeToCamel(['_', l] + q) == Ok([c] + p)
  {
    var ws := Split(q, '_');
    var t := ['_', l] + q;
    assert Split(t, '_') == [[]] + ([[l] + ws[0]] + ws[1..]) by {
      SplitAppend([l], q, '_');
      assert t[0] == '_' && t[1..] == [l] + q;
    }
    CamelWordsUpper(c, l, ws, p);
  }

  /** Any other character than '_' is copied and its word goes on as before. */
  lemma RoundTripOther(c: char, q: string, p: string)
    requires c != '_' && SnakeToCamel(q) == Ok(p)
    ensures SnakeToCamel([c] + q) == Ok([c] + p)
  {
    SplitAppend([c], q, '_');
    CamelWordsOther(c, Split(q, '_'), p);
  }

  /** A string without upper-case letters is already in snake_case. */
  lemma {:induction false} SnakeOfLower(s: string)
    requires forall i :: 0 <= i < |s| ==> !IsUpper(s[i])
    ensures Snake(s) == s
  {
    if s != [] {
      SnakeOfLower(s[1..]);
    }
  }

  /** A word that starts with a lower-case letter and has no upper-case letter. */
  predicate LowerWord(w: string)
  {
    w != [] && IsLower(w[0]) && forall i :: 0 <= i < |w| ==> !IsUpper(w[i])
  }

  /** Converting back a capitalized word puts a '_' before it. */
  lemma SnakeOfCapitalize(w: string)
    requires LowerWord(w)
    ensures Snake(Capitalize(w)) == "_" + w
  {
    var c, t := Upper(w[0]), w[1..];
    assert Capitalize(w) == [c] + t;
    assert Snake([c]) == "_" + [w[0]] by {
      CaseRoundTrip(w[0]);
      assert SnakeChar(c) == ['_', w[0]];
    }
    assert Snake(t) == t by {
      assert forall i :: 0 <= i < |t| ==> t[i] == w[i + 1];
      SnakeOfLower(t);
    }
    assert Snake([c] + t) == Snake([c]) + Snake(t) by {
      SnakeAppend([c], t);
    }
    assert "_" + [w[0]] + t == "_" + w;
  }

  /** Capitalizing such words and converting back puts a '_' before each. */
  lemma {:induction false} SnakeOfCapitalized(ws: seq<string>)
    requires forall i :: 0 <= i < |ws| ==> LowerWord(ws[i])
    ensures NoEmptyWord(ws)
    ensures Snake(CapitalizeAll(ws)) == JoinWith([[]] + ws, "_")
  {
    if ws != [] {
      var rest := ws[1..];
      assert forall i :: 0 <= i < |rest| ==> LowerWord(rest[i]) by {
        assert forall i :: 0 <= i < |rest| ==> rest[i] == ws[i + 1];
      }
      SnakeOfCapitalized(rest);
      assert LowerWord(ws[0]);
      SnakeOfCapitalizedStep(ws[0], rest);
      assert ws == [ws[0]] + rest;
    }
  }

  /** One more word in front. */
  lemma SnakeOfCapitalizedStep(w: string, rest: seq<string>)
    requires LowerWord(w) && NoEmptyWord(rest)
    requires Snake(CapitalizeAll(rest)) == JoinWith([[]] + rest, "_")
    ensures NoEmptyWord([w] + rest)
    ensures Snake(CapitalizeAll([w] + rest)) == JoinWith([[]] + ([w] + rest), "_")
  {
    var ws := [w] + rest;
    var tail := JoinWith([[]] + rest, "_");
    assert CapitalizeAll(ws) == Capitalize(w) + CapitalizeAll(rest) by {
      CapitalizeAllCons(w, rest);
    }
    assert Snake(CapitalizeAll(ws)) == ("_" + w) + tail by {
      SnakeOfCapitalize(w);
      SnakeAppend(Capitalize(w), CapitalizeAll(rest));
    }
    assert JoinWith([[]] + ws, "_") == "_" + JoinWith(ws, "_") by {
      JoinEmptyHead(ws, "_");
    }
    assert JoinWith(ws, "_") == w + tail by {
      JoinFirst(ws, "_");
      assert ws[0] == w && ws[1..] == rest;
    }
  }

  /** The join seen from its first piece. */
  lemma JoinFirst(ws: seq<string>, sep: string)
    requires |ws| >= 1
    ensures JoinWith(ws, sep) == ws[0] + JoinWith([[]] + ws[1..], sep)
  {
    if |ws| > 1 {
      JoinEmptyHead(ws[1..], sep);
    }
  }

  /** snake_case -> camelCase -> snake_case gives back a string without
      upper-case letters whose every word after the first starts with a
      lower-case letter. */
  lemma SnakeCamelRoundTrip(s: string)
    requires forall i :: 0 <= i < |s| ==> !IsUpper(s[i])
    requires forall i :: 1 <= i < |Split(s, '_')| ==> Split(s, '_')[i] != [] && IsLower(Split(s, '_')[i][0])
    ensures SnakeToCamel(s).Ok?
    ensures Snake(SnakeToCamel(s).value) == s
  {
    var ws := Split(s, '_');
    var rest := ws[1..];
    forall i | 0 <= i < |ws| ensures forall k :: 0 <= k < |ws[i]| ==> !IsUpper(ws[i][k]) {
      forall k | 0 <= k < |ws[i]| ensures !IsUpper(ws[i][k]) {
        SplitChars(s, '_', i, ws[i][k]);
      }
    }
    assert forall i :: 0 <= i < |rest| ==> rest[i] == ws[i + 1];
    SnakeOfCapitalized(rest);
    SnakeOfLower(ws[0]);
    SnakeAppend(ws[0], CapitalizeAll(rest));
    JoinFirst(ws, "_");
    JoinSplit(s, '_');
  }

  /** Words without '_', none but the first empty, joined with '_': the first
      word stays as it is and every later one is capitalized. */
  lemma SnakeToCamelOfWords(ws: seq<string>)
    requires |ws| >= 1 && forall i :: 0 <= i < |ws| ==> '_' !in ws[i]
    requires forall i :: 1 <= i < |ws| ==> ws[i] != []
    ensures NoEmptyWord(ws[1..])
    ensures SnakeToCamel(JoinWith(ws, "_")) == Ok(ws[0] + CapitalizeAll(ws[1..]))
  {
    assert forall i :: 0 <= i < |ws[1..]| ==> ws[1..][i] == ws[i + 1];
    SplitJoin(ws, '_');
  }

  lemma SnakeToCamelExample(a: string, b: string)
    requires a == "snake" && b == "case"
    ensures SnakeToCamel(a + "_" + b) == Ok("snakeCase")
  {
    var ws := [a, b];
    assert JoinWith(ws, "_") == a + "_" + b;
    assert '_' !in a && '_' !in b;
    assert forall i :: 0 <= i < |ws| ==> '_' !in ws[i];
    SnakeToCamelOfWords(ws);
    assert SnakeToCamel(a + "_" + b) == Ok(a + CapitalizeAll([b]));
    assert ws[1..] == [b];
    assert CapitalizeAll([b]) == Capitalize(b) + CapitalizeAll([]);
    assert Capitalize(b) == [Upper('c')] + "ase";
    assert Upper('c') == 'C';
    assert Capitalize(b) == "Case";
    assert CapitalizeAll([b]) == "Case";
    assert a + "Case" == "snakeCase";
  }
}
