/** Splitting and joining text at one separator, and the whitespace `str.strip` removes. */
module Text {

  function Split<T(==)>(s: seq<T>, separator: T): (parts: seq<seq<T>>)
    ensures |parts| > 0
  {
    if s == [] then [[]]
    else
      var rest := Split(s[1..], separator);
      if s[0] == separator then [[]] + rest else [[s[0]] + rest[0]] + rest[1..]
  }

  function Join<T>(parts: seq<seq<T>>, separator: T): seq<T>
    requires |parts| > 0
  {
    if |parts| == 1 then parts[0] else parts[0] + [separator] + Join(parts[1..], separator)
  }

  /** Splitting at a separator in the middle splits both sides. */
  lemma {:induction false} SplitAcross<T>(a: seq<T>, b: seq<T>, separator: T)
    ensures Split(a + [separator] + b, separator) == Split(a, separator) + Split(b, separator)
  {
    var s := a + [separator] + b;
    if a == [] {
      assert s[1..] == b;
    } else {
      assert s[1..] == a[1..] + [separator] + b;
      SplitAcross(a[1..], b, separator);
    }
  }

  lemma {:induction false} SplitOfOnePart<T>(s: seq<T>, separator: T)
    requires separator !in s
    ensures Split(s, separator) == [s]
  {
    if s != [] {
      SplitOfOnePart(s[1..], separator);
      assert s == [s[0]] + s[1..];
    }
  }

  lemma {:induction false} PartsLackTheSeparator<T>(s: seq<T>, separator: T)
    ensures forall part :: part in Split(s, separator) ==> separator !in part
  {
    if s != [] {
      PartsLackTheSeparator(s[1..], separator);
      var rest := Split(s[1..], separator);
      assert rest[0] in rest && forall part :: part in rest[1..] ==> part in rest;
    }
  }

  /** Joining undoes splitting. */
  lemma {:induction false} JoinUndoesSplit<T>(s: seq<T>, separator: T)
    ensures Join(Split(s, separator), separator) == s
  {
    if s != [] {
      JoinUndoesSplit(s[1..], separator);
      var rest := Split(s[1..], separator);
      if s[0] == separator {
        assert ([[]] + rest)[1..] == rest;
      } else {
        assert ([[s[0]] + rest[0]] + rest[1..])[1..] == rest[1..];
      }
    }
  }

  /** Splitting undoes joining parts that lack the separator. */
  lemma {:induction false} SplitUndoesJoin<T>(parts: seq<seq<T>>, separator: T)
    requires |parts| > 0 && forall part :: part in parts ==> separator !in part
    ensures Split(Join(parts, separator), separator) == parts
  {
    SplitOfOnePart(parts[0], separator);
    if |parts| > 1 {
      SplitUndoesJoin(parts[1..], separator);
      SplitAcross(parts[0], Join(parts[1..], separator), separator);
    }
  }

  /** The characters `str.isspace` and `str.strip` count as whitespace. */
  predicate IsWhitespace(c: char) {
    var code := c as int;
    || 0x09 <= code <= 0x0D || 0x1C <= code <= 0x20 || code == 0x85 || code == 0xA0 || code == 0x1680
    || 0x2000 <= code <= 0x200A || code == 0x2028 || code == 0x2029 || code == 0x202F || code == 0x205F || code == 0x3000
  }

  predicate IsBlank(s: string) {
    forall i :: 0 <= i < |s| ==> IsWhitespace(s[i])
  }

  function StripLeft(s: string): string {
    if s != "" && IsWhitespace(s[0]) then StripLeft(s[1..]) else s
  }

  function StripRight(s: string): string {
    if s != "" && IsWhitespace(s[|s| - 1]) then StripRight(s[..|s| - 1]) else s
  }

  function Strip(s: string): string {
    StripRight(StripLeft(s))
  }

  /** Stripping removes whitespace at the ends, all of it and nothing else. */
  lemma StripExactly(s: string)
    ensures exists left, right :: IsStripped(s, left, Strip(s), right)
    ensures Strip(s) != "" ==> !IsWhitespace(Strip(s)[0]) && !IsWhitespace(Strip(s)[|Strip(s)| - 1])
  {
    var left := LeftOf(s);
    var right := RightOf(StripLeft(s));
    assert IsStripped(s, left, Strip(s), right);
  }

  predicate IsStripped(s: string, left: string, middle: string, right: string) {
    s == left + middle + right && IsBlank(left) && IsBlank(right)
  }

  lemma {:induction false} LeftOf(s: string) returns (left: string)
    ensures s == left + StripLeft(s) && IsBlank(left)
    ensures StripLeft(s) != "" ==> !IsWhitespace(StripLeft(s)[0])
  {
    left := "";
    if s != "" && IsWhitespace(s[0]) {
      var rest := LeftOf(s[1..]);
      left := [s[0]] + rest;
    }
  }

  lemma {:induction false} RightOf(s: string) returns (right: string)
    ensures s == StripRight(s) + right && IsBlank(right)
    ensures StripRight(s) != "" ==> !IsWhitespace(StripRight(s)[|StripRight(s)| - 1]) && StripRight(s)[0] == s[0]
  {
    right := "";
    if s != "" && IsWhitespace(s[|s| - 1]) {
      var rest := RightOf(s[..|s| - 1]);
      right := rest + [s[|s| - 1]];
    }
  }
}
