/** `String.prototype.split` on a one-character separator, `Array.prototype.join`,
    and the case mapping used by `toUpperCase` / `toLowerCase`. */
module Strings {

  /** Number of occurrences of c in s. */
  function Count(s: string, c: char): (k: nat)
    ensures k <= |s|
    ensures k == 0 <==> c !in s
  {
    if s == [] then 0 else (if s[0] == c then 1 else 0) + Count(s[1..], c)
  }

  /** `s.split(sep)`: the pieces between separators, so always at least one
      piece ("".split("-") is [""]). */
  function Split(s: string, sep: char): (parts: seq<string>)
    ensures |parts| >= 1
    decreases |s|
  {
    if s == [] then [[]]
    else
      var rest := Split(s[1..], sep);
      if s[0] == sep then [[]] + rest
      else [[s[0]] + rest[0]] + rest[1..]
  }

  /** Splitting looks at the first character: a separator starts a new piece,
      anything else joins the first piece. */
  lemma SplitOnSeparator(t: string, sep: char)
    ensures Split([sep] + t, sep) == [[]] + Split(t, sep)
  {
    assert ([sep] + t)[1..] == t;
  }

  lemma SplitOnOther(c: char, t: string, sep: char)
    requires c != sep
    ensures Split([c] + t, sep) == [[c] + Split(t, sep)[0]] + Split(t, sep)[1..]
  {
    assert ([c] + t)[1..] == t;
  }

  /** The pieces are one more than the separators, and none contains one. */
  lemma {:induction false} SplitShape(s: string, sep: char)
    ensures |Split(s, sep)| == Count(s, sep) + 1
    ensures forall i :: 0 <= i < |Split(s, sep)| ==> sep !in Split(s, sep)[i]
    decreases |s|
  {
    if s != [] {
      SplitShape(s[1..], sep);
      var rest := Split(s[1..], sep);
      if s[0] != sep {
        assert forall i :: 1 <= i < |Split(s, sep)| ==> Split(s, sep)[i] == rest[i];
      } else {
        assert forall i :: 1 <= i < |Split(s, sep)| ==> Split(s, sep)[i] == rest[i - 1];
      }
    }
  }

  /** `parts.join(sep)`. */
  function JoinWith(parts: seq<string>, sep: string): string
  {
    if parts == [] then []
    else if |parts| == 1 then parts[0]
    else parts[0] + sep + JoinWith(parts[1..], sep)
  }

  /** `parts.join('')`. */
  function Concat(parts: seq<string>): string
  {
    if parts == [] then [] else parts[0] + Concat(parts[1..])
  }

  lemma {:induction false} JoinSplit(s: string, sep: char)
    ensures JoinWith(Split(s, sep), [sep]) == s
    decreases |s|
  {
    if s != [] {
      JoinSplit(s[1..], sep);
      var rest := Split(s[1..], sep);
      if s[0] != sep && |rest| > 1 {
        assert JoinWith(rest, [sep]) == rest[0] + [sep] + JoinWith(rest[1..], [sep]);
      }
    }
  }

  /** Splitting a separator-free prefix glues it onto the first piece. */
  lemma {:induction false} SplitAppend(a: string, t: string, sep: char)
    requires sep !in a
    ensures Split(a + t, sep) == [a + Split(t, sep)[0]] + Split(t, sep)[1..]
    decreases |a|
  {
    var q := Split(t, sep);
    if a == [] {
      assert a + t == t;
      assert q == [q[0]] + q[1..];
      assert a + q[0] == q[0];
    } else {
      var s := a + t;
      var a' := a[1..];
      assert s[1..] == a' + t;
      assert s[0] == a[0] && a[0] != sep by { assert a[0] in a; }
      assert sep !in a' by { assert forall c :: c in a' ==> c in a; }
      SplitAppend(a', t, sep);
      var rest := Split(a' + t, sep);
      assert rest == [a' + q[0]] + q[1..];
      assert Split(s, sep) == [[a[0]] + rest[0]] + rest[1..];
      assert rest[1..] == q[1..];
      assert [a[0]] + (a' + q[0]) == a + q[0];
    }
  }

  lemma {:induction false} SplitJoin(parts: seq<string>, sep: char)
    requires |parts| >= 1
    requires forall i :: 0 <= i < |parts| ==> sep !in parts[i]
    ensures Split(JoinWith(parts, [sep]), sep) == parts
    decreases |parts|
  {
    var p := parts[0];
    if |parts| == 1 {
      SplitAppend(p, [], sep);
      assert p + [] == p;
    } else {
      var j := JoinWith(parts[1..], [sep]);
      SplitJoin(parts[1..], sep);
      assert JoinWith(parts, [sep]) == p + ([sep] + j);
      SplitAppend(p, [sep] + j, sep);
      assert ([sep] + j)[1..] == j;
      assert Split([sep] + j, sep) == [[]] + Split(j, sep);
      assert p + [] == p;
      assert parts == [p] + parts[1..];
    }
  }

  /** Every character of a piece comes from the split string. */
  lemma {:induction false} SplitChars(s: string, sep: char, i: nat, c: char)
    requires i < |Split(s, sep)| && c in Split(s, sep)[i]
    ensures c in s
    decreases |s|
  {
    if s != [] {
      var rest := Split(s[1..], sep);
      if s[0] == sep {
        if i > 0 { SplitChars(s[1..], sep, i - 1, c); }
      } else if i == 0 {
        if c != s[0] { SplitChars(s[1..], sep, 0, c); }
      } else {
        SplitChars(s[1..], sep, i, c);
      }
    }
  }

  /** `toUpperCase` on one character: ASCII a-z and Cyrillic а-я, ё. */
  function Upper(c: char): char
  {
    if 'a' <= c <= 'z' then (c as int - 32) as char
    else if 'а' <= c <= 'я' then (c as int - 32) as char
    else if c == 'ё' then 'Ё'
    else c
  }

  /** `toLowerCase` on one character: ASCII A-Z and Cyrillic А-Я, Ё. */
  function Lower(c: char): char
  {
    if 'A' <= c <= 'Z' then (c as int + 32) as char
    else if 'А' <= c <= 'Я' then (c as int + 32) as char
    else if c == 'Ё' then 'ё'
    else c
  }

  /** The test the camel-case converter applies: a character equal to its
      upper-case form and different from its lower-case form. */
  predicate IsUpper(c: char)
  {
    c == Upper(c) && c != Lower(c)
  }

  /** A lower-case letter: one that upper-casing changes. */
  predicate IsLower(c: char)
  {
    Upper(c) != c
  }

  lemma CaseRoundTrip(c: char)
    ensures IsLower(c) ==> IsUpper(Upper(c)) && Lower(Upper(c)) == c
    ensures IsUpper(c) ==> !IsUpper(Lower(c)) && IsLower(Lower(c)) && Upper(Lower(c)) == c
  {
  }
}
