/**
 * The casing helpers of the `name-util` package, given a small concrete meaning:
 * a name is a list of segments separated by '-'; `ToClassName` capitalises every
 * segment and glues them together, `ToCamelCase` does the same and then lower-cases
 * the first letter, and `ToDashedName` breaks a camel-cased name at its capitals.
 * Also `Array.prototype.join`, `String.prototype.split` and number-to-string.
 */
module Names {

  predicate IsUpper(c: char) { 'A' <= c <= 'Z' }
  predicate IsLower(c: char) { 'a' <= c <= 'z' }

  function Upper(c: char): char { if IsLower(c) then (c as int - 32) as char else c }
  function Lower(c: char): char { if IsUpper(c) then (c as int + 32) as char else c }

  /** `String.prototype.toLocaleLowerCase` on ASCII letters. */
  function LowerString(s: string): (r: string)
    ensures |r| == |s| && forall i :: 0 <= i < |s| ==> r[i] == Lower(s[i])
  {
    if s == [] then [] else [Lower(s[0])] + LowerString(s[1..])
  }

  function Capitalize(s: string): string
  {
    if s == [] then [] else [Upper(s[0])] + s[1..]
  }

  function Uncapitalize(s: string): string
  {
    if s == [] then [] else [Lower(s[0])] + s[1..]
  }

  /** `s.split(sep)` for a one-character separator: never empty, keeps empty pieces. */
  function Split(s: string, sep: char): (r: seq<string>)
    ensures |r| >= 1
  {
    if s == [] then [""]
    else if s[0] == sep then [""] + Split(s[1..], sep)
    else
      var rest := Split(s[1..], sep);
      [[s[0]] + rest[0]] + rest[1..]
  }

  /** `parts.join(sep)`. */
  function Join(parts: seq<string>, sep: string): string
  {
    if parts == [] then ""
    else if |parts| == 1 then parts[0]
    else parts[0] + sep + Join(parts[1..], sep)
  }

  function Concat(parts: seq<string>): string
  {
    if parts == [] then "" else parts[0] + Concat(parts[1..])
  }

  function CapitalizeAll(parts: seq<string>): (r: seq<string>)
    ensures |r| == |parts| && forall i :: 0 <= i < |parts| ==> r[i] == Capitalize(parts[i])
  {
    if parts == [] then [] else [Capitalize(parts[0])] + CapitalizeAll(parts[1..])
  }

  /** `toClassName`: "query-type" becomes "QueryType", "followersUserType" becomes "FollowersUserType". */
  function ToClassName(s: string): string
  {
    Concat(CapitalizeAll(Split(s, '-')))
  }

  /** A single word that already starts with a capital (or a non-letter) is its own class name. */
  lemma ClassNameOfWord(s: string)
    requires '-' !in s && s != [] && !IsLower(s[0])
    ensures ToClassName(s) == s
  {
    SplitNoSeparator(s, '-');
    assert Capitalize(s) == s by {
      assert [s[0]] + s[1..] == s;
    }
    assert CapitalizeAll([s]) == [s];
    assert Concat([s]) == s + Concat([]);
  }

  /** `toCamelCase`: "fetch-user-and-followers" becomes "fetchUserAndFollowers". */
  function ToCamelCase(s: string): string
  {
    Uncapitalize(ToClassName(s))
  }

  /** `toDashedName`: "lazyUserQuery" becomes "lazy-user-query". */
  function ToDashedName(s: string): string
  {
    if s == [] then [] else [Lower(s[0])] + DashCapitals(s[1..])
  }

  function DashCapitals(s: string): string
  {
    if s == [] then []
    else if IsUpper(s[0]) then ['-', Lower(s[0])] + DashCapitals(s[1..])
    else [s[0]] + DashCapitals(s[1..])
  }

  /** `String(n)` for a natural number. */
  function NatToString(n: nat): (r: string)
    ensures |r| >= 1
    decreases n
  {
    var d := ['0', '1', '2', '3', '4', '5', '6', '7', '8', '9'][n % 10];
    if n < 10 then [d] else NatToString(n / 10) + [d]
  }

  /** Splitting at the first separator peels off the piece before it. */
  lemma {:induction false} SplitAfterPiece(a: string, b: string, sep: char)
    requires sep !in a
    ensures Split(a + [sep] + b, sep) == [a] + Split(b, sep)
  {
    if a == [] {
      assert a + [sep] + b == [sep] + b;
    } else {
      var s := a + [sep] + b;
      assert s[0] == a[0] && a[0] != sep;
      assert s[1..] == a[1..] + [sep] + b;
      SplitAfterPiece(a[1..], b, sep);
      assert [s[0]] + a[1..] == a;
    }
  }

  /** A separator between two strings separates their pieces. */
  lemma {:induction false} SplitAppend(a: string, b: string, sep: char)
    ensures Split(a + [sep] + b, sep) == Split(a, sep) + Split(b, sep)
  {
    var s := a + [sep] + b;
    if a == [] {
      assert s == [sep] + b;
    } else {
      assert s[0] == a[0];
      assert s[1..] == a[1..] + [sep] + b;
      SplitAppend(a[1..], b, sep);
    }
  }

  /** `toDashedName` dashes capitals piece by piece. */
  lemma {:induction false} DashCapitalsAppend(a: string, b: string)
    ensures DashCapitals(a + b) == DashCapitals(a) + DashCapitals(b)
  {
    if a == [] {
      assert a + b == b;
    } else {
      assert (a + b)[0] == a[0];
      assert (a + b)[1..] == a[1..] + b;
      DashCapitalsAppend(a[1..], b);
    }
  }

  /** A capital after a non-empty start of a name begins a new dashed segment. */
  lemma DashedNameBeforeCapital(before: string, c: char, w: string)
    requires before != [] && IsUpper(c)
    ensures ToDashedName(before + [c] + w) == ToDashedName(before) + ['-', Lower(c)] + DashCapitals(w)
  {
    var name := before + [c] + w;
    assert name[0] == before[0];
    assert name[1..] == before[1..] + ([c] + w);
    DashCapitalsAppend(before[1..], [c] + w);
    assert ([c] + w)[1..] == w;
  }

  /** A capitalised word after a non-empty start of a name becomes a dashed lower-case segment. */
  lemma DashedNameBeforeWord(before: string, c: char, word: string, rest: string)
    requires before != [] && IsUpper(c)
    requires forall i :: 0 <= i < |word| ==> !IsUpper(word[i])
    ensures ToDashedName(before + ([c] + word) + rest) ==
            ToDashedName(before) + ['-'] + ([Lower(c)] + word + DashCapitals(rest))
  {
    Regroup(before, [c], word, rest);
    DashedNameBeforeCapital(before, c, word + rest);
    DashCapitalsAppend(word, rest);
    DashCapitalsOfLower(word);
    Regroup(ToDashedName(before) + ['-'], [Lower(c)], word, DashCapitals(rest));
  }

  lemma Regroup(a: string, b: string, c: string, d: string)
    ensures a + (b + c) + d == a + b + (c + d)
    ensures a + b + (c + d) == a + (b + c + d)
  {
  }

  /** A string without capitals or dashes is its own dashed, lower-cased name. */
  lemma {:induction false} DashedNameOfWord(s: string)
    requires forall i :: 0 <= i < |s| ==> !IsUpper(s[i]) && s[i] != '-'
    ensures ToDashedName(s) == s && LowerString(s) == s
  {
    if s != [] {
      DashCapitalsOfLower(s[1..]);
      assert [s[0]] + s[1..] == s;
    }
  }

  lemma {:induction false} DashCapitalsOfLower(s: string)
    requires forall i :: 0 <= i < |s| ==> !IsUpper(s[i])
    ensures DashCapitals(s) == s
  {
    if s != [] {
      DashCapitalsOfLower(s[1..]);
      assert [s[0]] + s[1..] == s;
    }
  }

  /** Pieces that hold no separator come back out of `Split` after `Join`. */
  lemma {:induction false} SplitJoin(parts: seq<string>, sep: char)
    requires |parts| >= 1
    requires forall i :: 0 <= i < |parts| ==> sep !in parts[i]
    ensures Split(Join(parts, [sep]), sep) == parts
  {
    if |parts| == 1 {
      SplitNoSeparator(parts[0], sep);
    } else {
      SplitJoin(parts[1..], sep);
      SplitAfterPiece(parts[0], Join(parts[1..], [sep]), sep);
    }
  }

  lemma {:induction false} SplitNoSeparator(a: string, sep: char)
    requires sep !in a
    ensures Split(a, sep) == [a]
  {
    if a != [] {
      assert a[0] != sep;
      SplitNoSeparator(a[1..], sep);
      assert [a[0]] + a[1..] == a;
    }
  }

  /** A dash-free first segment is capitalised on its own by `ToClassName`. */
  lemma ClassNameOfPrefixed(a: string, b: string)
    requires '-' !in a
    ensures ToClassName(a + "-" + b) == Capitalize(a) + ToClassName(b)
  {
    SplitAfterPiece(a, b, '-');
    var parts := Split(b, '-');
    assert CapitalizeAll([a] + parts) == [Capitalize(a)] + CapitalizeAll(parts);
  }

  /** `toCamelCase("fetch-" + x)` starts with "fetch" and continues with the class name of x. */
  lemma CamelCaseOfPrefixed(a: string, b: string)
    requires '-' !in a && a != [] && IsLower(a[0])
    ensures ToCamelCase(a + "-" + b) == a + ToClassName(b)
  {
    ClassNameOfPrefixed(a, b);
    UncapitalizeCapitalized(a, ToClassName(b));
  }

  /** Lower-casing the first letter undoes capitalising a lower-case start. */
  lemma UncapitalizeCapitalized(a: string, t: string)
    requires a != [] && IsLower(a[0])
    ensures Uncapitalize(Capitalize(a) + t) == a + t
  {
    var c := Capitalize(a) + t;
    assert c == [Upper(a[0])] + (a[1..] + t);
    assert Lower(Upper(a[0])) == a[0];
    assert [a[0]] + (a[1..] + t) == a + t;
  }
}
