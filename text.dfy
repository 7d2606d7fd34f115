/** The Python string primitives the cleaning and linking code relies on:
    str.strip, str.lower, the `in` substring test, int()/str() on ids, and
    the two escape-removing regular expressions, all on the ASCII range. */
module Text {
  import opened Wrappers
  import opened Errors

  /** str.isspace on the ASCII range: space, \t \n \v \f \r and \x1c-\x1f. */
  predicate IsSpace(c: char) {
    c == ' ' || (9 <= c as int <= 13) || (28 <= c as int <= 31)
  }

  /** What the regular-expression class \w matches on the ASCII range. */
  predicate IsWordChar(c: char) {
    ('a' <= c <= 'z') || ('A' <= c <= 'Z') || ('0' <= c <= '9') || c == '_'
  }

  predicate IsUpper(c: char) {
    'A' <= c <= 'Z'
  }

  predicate IsDigit(c: char) {
    '0' <= c <= '9'
  }

  predicate NoUpper(s: string) {
    forall k :: 0 <= k < |s| ==> !IsUpper(s[k])
  }

  /** A text with no whitespace at either end, as str.strip leaves it. */
  predicate Unpadded(s: string) {
    s == [] || (!IsSpace(s[0]) && !IsSpace(s[|s| - 1]))
  }

  // ---------------------------------------------------------------------
  // str.lower

  function LowerChar(c: char): (r: char)
    ensures !IsUpper(r)
    ensures IsSpace(r) == IsSpace(c)
    ensures !IsUpper(c) ==> r == c
  {
    if IsUpper(c) then (c as int + 32) as char else c
  }

  function Lower(s: string): (r: string)
    ensures |r| == |s|
    ensures forall k :: 0 <= k < |s| ==> r[k] == LowerChar(s[k])
  {
    seq(|s|, k requires 0 <= k < |s| => LowerChar(s[k]))
  }

  lemma LowerShape(s: string)
    ensures NoUpper(Lower(s))
    ensures Unpadded(s) ==> Unpadded(Lower(s))
    ensures NoUpper(s) ==> Lower(s) == s
  {
  }

  // ---------------------------------------------------------------------
  // str.strip

  /** Number of whitespace characters at the start of s. */
  function LeadingSpaces(s: string): (n: nat)
    ensures n <= |s|
    ensures forall k :: 0 <= k < n ==> IsSpace(s[k])
    ensures n < |s| ==> !IsSpace(s[n])
  {
    if |s| > 0 && IsSpace(s[0]) then 1 + LeadingSpaces(s[1..]) else 0
  }

  /** Number of whitespace characters at the end of s. */
  function TrailingSpaces(s: string): (n: nat)
    ensures n <= |s|
    ensures forall k :: |s| - n <= k < |s| ==> IsSpace(s[k])
    ensures n < |s| ==> !IsSpace(s[|s| - n - 1])
  {
    if |s| > 0 && IsSpace(s[|s| - 1]) then 1 + TrailingSpaces(s[..|s| - 1]) else 0
  }

  /** str.strip(): the text between the leading and the trailing whitespace. */
  function Strip(s: string): (r: string)
    ensures Unpadded(r)
    ensures |r| <= |s|
  {
    var rest := s[LeadingSpaces(s)..];
    rest[..|rest| - TrailingSpaces(rest)]
  }

  /** Strip removes exactly the surrounding whitespace: what it keeps is a
      slice of s whose outside is all whitespace. */
  lemma StripSlice(s: string)
    ensures var a := LeadingSpaces(s);
            a + |Strip(s)| <= |s| && Strip(s) == s[a..a + |Strip(s)|]
            && (forall k :: a + |Strip(s)| <= k < |s| ==> IsSpace(s[k]))
  {
    var a := LeadingSpaces(s);
    var rest := s[a..];
    var t := TrailingSpaces(rest);
    assert Strip(s) == rest[..|rest| - t];
    forall k | a + |Strip(s)| <= k < |s|
      ensures IsSpace(s[k])
    {
      assert s[k] == rest[k - a];
    }
  }

  lemma StripUnpadded(s: string)
    requires Unpadded(s)
    ensures Strip(s) == s
  {
    assert LeadingSpaces(s) == 0;
    assert s[0..] == s;
    assert TrailingSpaces(s) == 0;
  }

  lemma StripAllSpaces(s: string)
    requires forall k :: 0 <= k < |s| ==> IsSpace(s[k])
    ensures Strip(s) == ""
  {
  }

  /** strip_and_lower_str: trims, then lowercases. */
  function StripAndLower(s: string): (r: string)
    ensures Unpadded(r) && NoUpper(r)
    ensures |r| <= |s|
  {
    LowerShape(Strip(s));
    Lower(Strip(s))
  }

  /** Normalising an already normalised text changes nothing. */
  lemma StripAndLowerIdempotent(s: string)
    ensures StripAndLower(StripAndLower(s)) == StripAndLower(s)
  {
    var u := StripAndLower(s);
    StripUnpadded(u);
    LowerShape(u);
  }

  // ---------------------------------------------------------------------
  // The `in` operator on two strings

  predicate StartsWith(s: string, p: string) {
    |p| <= |s| && s[..|p|] == p
  }

  /** Python's `sub in s`: sub occurs in s as a contiguous block. */
  predicate Contains(s: string, sub: string)
    decreases |s|
  {
    StartsWith(s, sub) || (|s| > 0 && Contains(s[1..], sub))
  }

  /** An occurrence at a known offset makes `sub in s` true. */
  lemma {:induction false} ContainsAt(s: string, sub: string, i: nat)
    requires i + |sub| <= |s| && s[i..i + |sub|] == sub
    ensures Contains(s, sub)
    decreases i
  {
    if i == 0 {
      assert StartsWith(s, sub);
    } else {
      assert s[1..][i - 1..i - 1 + |sub|] == sub;
      ContainsAt(s[1..], sub, i - 1);
    }
  }

  /** sub occurs in s at offset i. */
  predicate OccursAt(s: string, sub: string, i: nat) {
    i + |sub| <= |s| && s[i..i + |sub|] == sub
  }

  /** Conversely, `sub in s` holds only when sub occurs in s at some offset. */
  lemma {:induction false} ContainsFind(s: string, sub: string)
    requires Contains(s, sub)
    ensures exists i: nat :: OccursAt(s, sub, i)
    decreases |s|
  {
    if StartsWith(s, sub) {
      assert OccursAt(s, sub, 0);
    } else {
      ContainsFind(s[1..], sub);
      var i: nat :| OccursAt(s[1..], sub, i);
      assert s[1..][i..i + |sub|] == s[i + 1..i + 1 + |sub|];
      assert OccursAt(s, sub, i + 1);
    }
  }

  // ---------------------------------------------------------------------
  // re.sub('\\\\.\w{1,3}', '', s)  (utils/transform.py)

  /** Length, at most `limit`, of the run of word characters starting s. */
  function WordRun(s: string, limit: nat): (n: nat)
    ensures n <= limit && n <= |s|
    ensures forall k :: 0 <= k < n ==> IsWordChar(s[k])
    ensures n < limit && n < |s| ==> !IsWordChar(s[n])
  {
    if limit == 0 || |s| == 0 || !IsWordChar(s[0]) then 0 else 1 + WordRun(s[1..], limit - 1)
  }

  /** Length of the greedy match of  \\.\w{1,3}  at the start of s (a
      backslash, one character other than a line feed, then one to three
      word characters), or 0 when the pattern does not match there. */
  function EscapeMatch(s: string): (n: nat)
    ensures n == 0 || (3 <= n <= 5 && n <= |s| && s[0] == '\\')
    ensures n > 0 <==> |s| >= 3 && s[0] == '\\' && s[1] != '\n' && IsWordChar(s[2])
  {
    if |s| >= 3 && s[0] == '\\' && s[1] != '\n' && IsWordChar(s[2]) then 2 + WordRun(s[2..], 3) else 0
  }

  /** remove_undecoded_chars on one cell: scanning left to right, every
      match of the escape pattern is deleted and the scan resumes after it. */
  function RemoveUndecoded(s: string): (r: string)
    ensures |r| <= |s|
    ensures forall c :: c in r ==> c in s
    decreases |s|
  {
    if s == "" then ""
    else
      var n := EscapeMatch(s);
      if n > 0 then RemoveUndecoded(s[n..]) else [s[0]] + RemoveUndecoded(s[1..])
  }

  /** A backslash-free prefix passes through untouched. */
  lemma {:induction false} RemoveUndecodedKeepsPrefix(x: string, y: string)
    requires forall k :: 0 <= k < |x| ==> x[k] != '\\'
    ensures RemoveUndecoded(x + y) == x + RemoveUndecoded(y)
    decreases |x|
  {
    var s := x + y;
    if x != [] {
      assert s[0] == x[0] != '\\';
      assert EscapeMatch(s) == 0;
      assert s[1..] == x[1..] + y;
      assert RemoveUndecoded(s) == [x[0]] + RemoveUndecoded(s[1..]);
      RemoveUndecodedKeepsPrefix(x[1..], y);
      assert [x[0]] + x[1..] == x;
    } else {
      assert s == y;
    }
  }

  /** Text without a backslash is left unchanged. */
  lemma RemoveUndecodedNoBackslash(s: string)
    requires forall k :: 0 <= k < |s| ==> s[k] != '\\'
    ensures RemoveUndecoded(s) == s
  {
    RemoveUndecodedKeepsPrefix(s, "");
    assert s + "" == s;
  }

  /** Deleting escapes cannot bring back an upper-case letter. */
  lemma RemoveUndecodedNoUpper(s: string)
    requires NoUpper(s)
    ensures NoUpper(RemoveUndecoded(s))
  {
    var r := RemoveUndecoded(s);
    forall k | 0 <= k < |r| ensures !IsUpper(r[k]) {
      assert r[k] in r;
      var j :| 0 <= j < |s| && s[j] == r[k];
    }
  }

  /** A four-character escape such as \x23 that is not followed by another
      word character is deleted whole. */
  lemma RemoveUndecodedDropsEscape(e: string, rest: string)
    requires |e| == 4 && e[0] == '\\' && e[1] != '\n' && IsWordChar(e[2]) && IsWordChar(e[3])
    requires rest == [] || !IsWordChar(rest[0])
    ensures RemoveUndecoded(e + rest) == RemoveUndecoded(rest)
  {
    var s := e + rest;
    assert s[2..][1..][1..] == rest;
    assert WordRun(s[2..], 3) == 2;
    assert EscapeMatch(s) == 4;
    assert s[4..] == rest;
  }

  /** The escape after the journal name is deleted and the space before it
      stays (the journal text of the cleaning example). */
  lemma RemoveUndecodedKeepsTrailingSpace()
    ensures RemoveUndecoded("psychopharmacology \\x23") == "psychopharmacology "
  {
    var e := "\\x23";
    RemoveUndecodedDropsEscape(e, "");
    assert e + "" == e;
    var x := "psychopharmacology ";
    assert forall k :: 0 <= k < |x| ==> x[k] != '\\';
    assert "psychopharmacology \\x23" == x + e;
    RemoveUndecodedKeepsPrefix(x, e);
    assert x + "" == x;
  }

  /** Two adjacent escapes are both deleted and the text around them is
      kept as it is, so the spaces on either side end up next to each other. */
  lemma {:induction false} RemoveUndecodedJoinsSurroundings(x: string, e1: string, e2: string, y: string)
    requires forall k :: 0 <= k < |x| ==> x[k] != '\\'
    requires forall k :: 0 <= k < |y| ==> y[k] != '\\'
    requires |e1| == 4 && e1[0] == '\\' && e1[1] != '\n' && IsWordChar(e1[2]) && IsWordChar(e1[3])
    requires |e2| == 4 && e2[0] == '\\' && e2[1] != '\n' && IsWordChar(e2[2]) && IsWordChar(e2[3])
    requires y == [] || !IsWordChar(y[0])
    ensures RemoveUndecoded(x + e1 + e2 + y) == x + y
  {
    RemoveUndecodedNoBackslash(y);
    RemoveUndecodedDropsEscape(e2, y);
    RemoveUndecodedDropsEscape(e1, e2 + y);
    assert x + e1 + e2 + y == x + (e1 + (e2 + y));
    RemoveUndecodedKeepsPrefix(x, e1 + (e2 + y));
  }

  // ---------------------------------------------------------------------
  // re.sub('\\\\.*(\s|$)', '', s)  (transform.py)

  /** Index of the first occurrence of ch in s, or |s| when it has none. */
  function IndexOf(s: string, ch: char): (n: nat)
    ensures n <= |s|
    ensures forall k :: 0 <= k < n ==> s[k] != ch
    ensures n < |s| ==> s[n] == ch
  {
    if |s| == 0 || s[0] == ch then 0 else 1 + IndexOf(s[1..], ch)
  }

  /** The legacy escape regex: from each backslash, `.*` runs greedily to
      the end of its line and `(\s|$)` then takes the line feed, or the end
      of the text; everything matched is deleted. */
  function StripFromBackslash(s: string): (r: string)
    ensures |r| <= |s|
    ensures (forall k :: 0 <= k < |s| ==> s[k] != '\\') ==> r == s
    decreases |s|
  {
    if s == "" then ""
    else if s[0] == '\\' then
      var e := IndexOf(s, '\n');
      if e < |s| then StripFromBackslash(s[e + 1..]) else ""
    else [s[0]] + StripFromBackslash(s[1..])
  }

  /** On a single line the legacy regex keeps exactly the text before the
      first backslash. */
  lemma {:induction false} StripFromBackslashSingleLine(s: string)
    requires forall k :: 0 <= k < |s| ==> s[k] != '\n'
    ensures StripFromBackslash(s) == s[..IndexOf(s, '\\')]
    decreases |s|
  {
    if s != "" && s[0] != '\\' {
      StripFromBackslashSingleLine(s[1..]);
      assert s[..IndexOf(s, '\\')] == [s[0]] + s[1..][..IndexOf(s[1..], '\\')];
    }
  }

  // ---------------------------------------------------------------------
  // str(int(s)) on an id text

  predicate AllDigits(s: string) {
    forall k :: 0 <= k < |s| ==> IsDigit(s[k])
  }

  /** A decimal numeral as str() prints an int: digits without leading
      zeros, "0" for zero, and a minus sign only before a non-zero value. */
  predicate CanonicalInt(t: string) {
    var body := if |t| > 0 && t[0] == '-' then t[1..] else t;
    |body| > 0 && AllDigits(body) && (body[0] == '0' ==> body == "0" && t == body)
  }

  function DropLeadingZeros(d: string): (r: string)
    requires |d| > 0 && AllDigits(d)
    ensures |r| > 0 && AllDigits(r) && (r[0] == '0' ==> r == "0")
    ensures AllDigits(d) && d[0] != '0' ==> r == d
    decreases |d|
  {
    if |d| > 1 && d[0] == '0' then DropLeadingZeros(d[1..]) else d
  }

  /** str(int(s)): surrounding whitespace and one sign are accepted, the
      rest must be decimal digits, otherwise int() raises ValueError. */
  function IntText(s: string): (r: Result<string, PyError>)
    ensures r.Ok? ==> CanonicalInt(r.value)
    ensures r.Err? ==> r.error == ValueError
  {
    var u := Strip(s);
    var signed := |u| > 0 && (u[0] == '-' || u[0] == '+');
    var digits := if signed then u[1..] else u;
    if |digits| == 0 || !AllDigits(digits) then Err(ValueError)
    else
      var m := DropLeadingZeros(digits);
      Ok(if signed && u[0] == '-' && m != "0" then "-" + m else m)
  }

  /** A numeral str() printed reads back as itself, so converting an id
      twice gives what converting it once gave. */
  lemma IntTextCanonical(t: string)
    requires CanonicalInt(t)
    ensures IntText(t) == Ok(t)
  {
    assert Unpadded(t);
    StripUnpadded(t);
    if |t| > 0 && t[0] == '-' {
      assert t[1..][0] != '0';
      assert DropLeadingZeros(t[1..]) == t[1..];
      assert "-" + t[1..] == t;
    } else if t[0] != '0' {
      assert DropLeadingZeros(t) == t;
    }
  }

  lemma IntTextIdempotent(s: string)
    requires IntText(s).Ok?
    ensures IntText(IntText(s).value) == IntText(s)
  {
    IntTextCanonical(IntText(s).value);
  }
}
