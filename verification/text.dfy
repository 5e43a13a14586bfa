/** String handling of the parsers: Python's `str.strip()`, `str.replace`,
    and the Unicode facilities the code relies on but the model does not
    define (NFKD normalisation and the regular-expression classes `\d`, `\w`). */
module Text {

  /** What Python's Unicode tables supply, left uninterpreted: the result of
      `unicodedata.normalize('NFKD', s)`, and membership of the `\d` and `\w`
      classes of `re` for `str` patterns. */
  datatype Unicode = Unicode(
    nfkd: string -> string,
    isDigit: char -> bool,
    isWord: char -> bool)

  /** Python's whitespace (`str.isspace`, used by `str.strip()` and by the `\s`
      class of `re`): the characters CPython's `Py_UNICODE_ISSPACE` accepts. */
  predicate IsSpace(c: char)
  {
    || '\t' <= c <= '\r'
    || '\U{1C}' <= c <= ' '
    || c == '\U{85}' || c == '\U{A0}' || c == '\U{1680}'
    || '\U{2000}' <= c <= '\U{200A}'
    || c == '\U{2028}' || c == '\U{2029}' || c == '\U{202F}' || c == '\U{205F}' || c == '\U{3000}'
  }

  /** Number of leading whitespace characters of `s`. */
  function LeadingSpaces(s: string): (n: nat)
    ensures n <= |s|
    ensures forall k :: 0 <= k < n ==> IsSpace(s[k])
    ensures n < |s| ==> !IsSpace(s[n])
  {
    if s == [] || !IsSpace(s[0]) then 0 else 1 + LeadingSpaces(s[1..])
  }

  /** Number of trailing whitespace characters of `s`. */
  function TrailingSpaces(s: string): (n: nat)
    ensures n <= |s|
    ensures forall k :: |s| - n <= k < |s| ==> IsSpace(s[k])
    ensures n < |s| ==> !IsSpace(s[|s| - n - 1])
  {
    if s == [] || !IsSpace(s[|s| - 1]) then 0 else 1 + TrailingSpaces(s[..|s| - 1])
  }

  /** `s.strip()`: the longest slice of `s` that neither starts nor ends with
      whitespace, and everything cut away on either side is whitespace. */
  function Strip(s: string): (r: string)
    ensures |r| <= |s|
    ensures r != [] ==> !IsSpace(r[0]) && !IsSpace(r[|r| - 1])
    ensures r == [] ==> forall k :: 0 <= k < |s| ==> IsSpace(s[k])
    ensures var i := LeadingSpaces(s);
              && i + |r| <= |s| && r == s[i..i + |r|]
              && forall k :: i + |r| <= k < |s| ==> IsSpace(s[k])
  {
    var i := LeadingSpaces(s);
    var rest := s[i..];
    var j := TrailingSpaces(rest);
    var r := rest[..|rest| - j];
    assert s[i..i + |r|] == r;
    r
  }

  /** A string that neither starts nor ends with whitespace is left alone by `strip()`. */
  lemma StripTrimmed(s: string)
    requires s != [] ==> !IsSpace(s[0]) && !IsSpace(s[|s| - 1])
    ensures Strip(s) == s
  {
    if s != [] {
      assert LeadingSpaces(s) == 0;
      assert TrailingSpaces(s) == 0;
    }
  }

  /** `s.replace(c, "")`: every occurrence of `c` deleted, the rest kept in
      order. `RemoveAllSingle`, `RemoveAllAppend` and `RemoveAllKeepsOthers`
      state this character by character. */
  function RemoveAll(s: string, c: char): (r: string)
    ensures |r| <= |s|
    ensures c !in r
    ensures c !in s ==> r == s
    ensures s != [] && s[0] != c ==> r != [] && r[0] == s[0]
    ensures s != [] && s[|s| - 1] != c ==> r != [] && r[|r| - 1] == s[|s| - 1]
  {
    if s == [] then []
    else if s[0] == c then RemoveAll(s[1..], c)
    else [s[0]] + RemoveAll(s[1..], c)
  }

  /** A single character is deleted if it is `c` and kept otherwise. */
  lemma RemoveAllSingle(s: string, c: char)
    requires |s| == 1
    ensures RemoveAll(s, c) == (if s[0] == c then [] else s)
  {
  }

  /** Deleting `c` keeps every other character as often as it occurs. */
  lemma {:induction false} RemoveAllKeepsOthers(s: string, c: char)
    ensures forall x :: x != c ==> multiset(RemoveAll(s, c))[x] == multiset(s)[x]
  {
    if s != [] {
      assert s == [s[0]] + s[1..];
      RemoveAllKeepsOthers(s[1..], c);
    }
  }

  /** Deleting a character distributes over concatenation. */
  lemma {:induction false} RemoveAllAppend(a: string, b: string, c: char)
    ensures RemoveAll(a + b, c) == RemoveAll(a, c) + RemoveAll(b, c)
  {
    if a == [] {
      assert a + b == b;
    } else {
      assert (a + b)[1..] == a[1..] + b;
      RemoveAllAppend(a[1..], b, c);
    }
  }

  /** A single space between two space-free parts is deleted. */
  lemma RemoveOneSpace(a: string, b: string)
    requires ' ' !in a && ' ' !in b
    ensures RemoveAll(a + " " + b, ' ') == a + b
  {
    var sb := " " + b;
    assert RemoveAll(sb, ' ') == b by {
      assert sb[0] == ' ' && sb[1..] == b;
    }
    assert a + " " + b == a + sb;
    RemoveAllAppend(a, sb, ' ');
  }

  /** `s.replace(a, b)` for single characters: position by position. */
  function ReplaceAll(s: string, a: char, b: char): (r: string)
    ensures |r| == |s|
    ensures forall k :: 0 <= k < |s| ==> r[k] == (if s[k] == a then b else s[k])
  {
    if s == [] then [] else [if s[0] == a then b else s[0]] + ReplaceAll(s[1..], a, b)
  }

  /** The numeric cleanup of a table cell once normalised:
      `.strip().replace(" ", "").replace(",", ".")`. */
  function Tidy(s: string): (r: string)
    ensures ' ' !in r && ',' !in r
  {
    var t := ReplaceAll(RemoveAll(Strip(s), ' '), ',', '.');
    assert forall k :: 0 <= k < |t| ==> t[k] != ' ' && t[k] != ',' by {
      var q := RemoveAll(Strip(s), ' ');
      assert forall k :: 0 <= k < |q| ==> q[k] in q;
    }
    t
  }

  /** A cleaned cell neither starts nor ends with whitespace. */
  lemma TidyTrimmed(s: string)
    ensures var t := Tidy(s); t != [] ==> !IsSpace(t[0]) && !IsSpace(t[|t| - 1])
  {
    var p := Strip(s);
    var q := RemoveAll(p, ' ');
    var t := ReplaceAll(q, ',', '.');
    assert t == Tidy(s);
    if t != [] {
      assert p != [] && p[0] != ' ' && p[|p| - 1] != ' ';
      assert q[0] == p[0] && q[|q| - 1] == p[|p| - 1];
    }
  }

  /** Cleaning a cleaned cell changes nothing. */
  lemma {:induction false} TidyIdempotent(s: string)
    ensures Tidy(Tidy(s)) == Tidy(s)
  {
    var t := Tidy(s);
    TidyTrimmed(s);
    StripTrimmed(t);
    assert RemoveAll(t, ' ') == t;
    var t' := ReplaceAll(t, ',', '.');
    assert forall k :: 0 <= k < |t| ==> t[k] != ',' by {
      assert forall k :: 0 <= k < |t| ==> t[k] in t;
    }
    assert t' == t;
  }

  /** The cleanup turns a grouped decimal with a comma into a plain decimal. */
  lemma TidyGroupedDecimal(s: string)
    requires s == "1 234,56"
    ensures Tidy(s) == "1234.56"
  {
    GroupedDecimalUnspaced(s);
    DecimalPoint(RemoveAll(Strip(s), ' '));
  }

  lemma GroupedDecimalUnspaced(s: string)
    requires s == "1 234,56"
    ensures RemoveAll(Strip(s), ' ') == "1234,56"
  {
    assert !IsSpace(s[0]) && !IsSpace(s[|s| - 1]);
    StripTrimmed(s);
    assert s == "1" + " " + "234,56";
    RemoveOneSpace("1", "234,56");
    assert "1" + "234,56" == "1234,56";
  }

  lemma DecimalPoint(q: string)
    requires q == "1234,56"
    ensures ReplaceAll(q, ',', '.') == "1234.56"
  {
  }

  /** A cell as the table parsers store it: `unorm('NFKD', c)` then the cleanup. */
  function CleanCell(u: Unicode, c: string): (r: string)
    ensures ' ' !in r && ',' !in r
  {
    Tidy(u.nfkd(c))
  }

  /** A label or a value as the label parsers compare and store it:
      `unorm('NFKD', s).strip()`. */
  function NormText(u: Unicode, s: string): string
  {
    Strip(u.nfkd(s))
  }
}
