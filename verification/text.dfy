/** The string functions of Go's standard library that the commands rely on:
    `strings.Split`, `strings.Join`, `strings.Fields`, `strings.Trim`,
    `strings.Index`, `strings.SplitN`, `strings.Replace`, `strconv.Itoa`,
    `strconv.Atoi`, `filepath.Ext`, and the `"%v "` output pattern. */
module Text {
  import opened Results

  /** `strings.HasPrefix`; `strings.Index(s, p) == 0` is the same test. */
  predicate HasPrefix(s: string, p: string) {
    |p| <= |s| && s[..|p|] == p
  }

  predicate HasSuffix(s: string, p: string) {
    |p| <= |s| && s[|s| - |p|..] == p
  }

  /** `strings.Index(s, sub) >= 0`. */
  predicate Contains(s: string, sub: string)
    decreases |s|
  {
    HasPrefix(s, sub) || (|s| > 0 && Contains(s[1..], sub))
  }

  /** A text whose first character does not start `sub` does not hold it. */
  lemma {:induction false} NotContains(s: string, sub: string)
    requires |sub| > 0 && sub[0] !in s
    ensures !Contains(s, sub)
    decreases |s|
  {
    if |s| > 0 {
      assert |sub| > |s| || s[..|sub|][0] == s[0];
      NotContains(s[1..], sub);
    }
  }

  /** `strings.Index`: the first position at which `sub` occurs. */
  function IndexOf(s: string, sub: string): (r: Option<nat>)
    ensures r.Some? ==> r.value + |sub| <= |s| && s[r.value..r.value + |sub|] == sub
    ensures r.Some? ==> forall i :: 0 <= i < r.value ==> !HasPrefix(s[i..], sub)
    ensures r.None? <==> !Contains(s, sub)
  {
    assert s[0..] == s;
    IndexFrom(s, sub, 0)
  }

  /** The first occurrence of `sub` at or after position `i`. */
  function IndexFrom(s: string, sub: string, i: nat): (r: Option<nat>)
    requires i <= |s|
    ensures r.Some? ==> i <= r.value && r.value + |sub| <= |s| && s[r.value..r.value + |sub|] == sub
    ensures r.Some? ==> forall k :: i <= k < r.value ==> !HasPrefix(s[k..], sub)
    ensures r.None? <==> !Contains(s[i..], sub)
    decreases |s| - i
  {
    if HasPrefix(s[i..], sub) then
      assert s[i..][..|sub|] == s[i..i + |sub|];
      Some(i)
    else if i == |s| then None
    else
      assert s[i..][1..] == s[i + 1..];
      IndexFrom(s, sub, i + 1)
  }

  /** `strings.SplitN(s, sep, 2)` when it yields two parts: the text before
      the first `sep` and the text after it. */
  function SplitOnce(s: string, sep: string): (r: Option<(string, string)>)
    ensures r.None? <==> !Contains(s, sep)
    ensures r.Some? ==> s == r.value.0 + sep + r.value.1
    ensures r.Some? ==> forall i :: 0 <= i < |r.value.0| ==> !HasPrefix(s[i..], sep)
  {
    match IndexOf(s, sep)
    case None => None
    case Some(i) =>
      assert s == s[..i] + s[i..i + |sep|] + s[i + |sep|..];
      Some((s[..i], s[i + |sep|..]))
  }

  /** Splitting `a + sep + b` at the first `sep` gives `a` and `b` back when
      the separator's first character does not occur in `a`. */
  lemma SplitOnceFirst(a: string, sep: string, b: string)
    requires |sep| > 0 && sep[0] !in a
    ensures SplitOnce(a + sep + b, sep) == Some((a, b))
  {
    var s := a + sep + b;
    assert HasPrefix(s[|a|..], sep) by {
      assert s[|a|..][..|sep|] == sep;
    }
    assert Contains(s, sep) by {
      ContainsAt(s, sep, |a|);
    }
    var r := SplitOnce(s, sep).value;
    NotBefore(a, sep, b, r.0, r.1);
    if |r.0| > |a| {
      assert false;
    }
    assert s[..|a|] == a;
    assert r.0 == s[..|r.0|];
    assert r.1 == s[|r.0| + |sep|..];
    assert b == s[|a| + |sep|..];
  }

  /** A split of `a + sep + b` at a separator cannot start inside `a` when
      the separator's first character does not occur there. */
  lemma NotBefore(a: string, sep: string, b: string, x: string, y: string)
    requires |sep| > 0 && sep[0] !in a
    requires a + sep + b == x + sep + y
    ensures |a| <= |x|
  {
    var s := a + sep + b;
    assert s[|x|] == sep[0];
    assert forall k :: 0 <= k < |a| ==> s[k] == a[k] && a[k] != sep[0];
  }

  /** A text contains whatever it holds at some position. */
  lemma {:induction false} ContainsAt(s: string, sub: string, k: nat)
    requires k <= |s| && HasPrefix(s[k..], sub)
    ensures Contains(s, sub)
    decreases k
  {
    if k > 0 {
      assert s[1..][k - 1..] == s[k..];
      ContainsAt(s[1..], sub, k - 1);
    } else {
      assert s[0..] == s;
    }
  }

  /** The non-empty lines, in order: the line readers skip empty ones. */
  function NonEmpty(lines: seq<string>): (r: seq<string>)
    ensures |r| <= |lines|
    ensures forall i :: 0 <= i < |r| ==> r[i] != ""
    ensures forall l :: l in lines && l != "" <==> l in r
    decreases |lines|
  {
    if |lines| == 0 then []
    else if lines[0] == "" then NonEmpty(lines[1..])
    else [lines[0]] + NonEmpty(lines[1..])
  }

  /** `strings.Join`. */
  function Join(parts: seq<string>, sep: string): string
    decreases |parts|
  {
    if |parts| == 0 then ""
    else if |parts| == 1 then parts[0]
    else parts[0] + sep + Join(parts[1..], sep)
  }

  /** `strings.Split` on a one-character separator: always at least one
      part, no part holds the separator, and joining gives the text back. */
  function Split(s: string, sep: char): (parts: seq<string>)
    ensures |parts| >= 1
    ensures forall i :: 0 <= i < |parts| ==> sep !in parts[i]
    ensures Join(parts, [sep]) == s
    decreases |s|
  {
    if |s| == 0 then [""]
    else
      var rest := Split(s[1..], sep);
      if s[0] == sep then
        assert ([""] + rest)[1..] == rest;
        [""] + rest
      else
        var parts := [[s[0]] + rest[0]] + rest[1..];
        assert parts[1..] == rest[1..];
        assert s == [s[0]] + s[1..];
        parts
  }

  lemma {:induction false} SplitWithoutSeparator(a: string, sep: char)
    requires sep !in a
    ensures Split(a, sep) == [a]
    decreases |a|
  {
    if |a| > 0 {
      SplitWithoutSeparator(a[1..], sep);
      assert a == [a[0]] + a[1..];
    }
  }

  lemma {:induction false} SplitAfterFirst(a: string, b: string, sep: char)
    requires sep !in a
    ensures Split(a + [sep] + b, sep) == [a] + Split(b, sep)
    decreases |a|
  {
    var s := a + [sep] + b;
    if |a| == 0 {
      assert s[1..] == b;
    } else {
      assert s[1..] == a[1..] + [sep] + b;
      SplitAfterFirst(a[1..], b, sep);
      assert [a[0]] + a[1..] == a;
    }
  }

  /** Splitting a join recovers the parts when no part holds the separator. */
  lemma {:induction false} SplitJoin(parts: seq<string>, sep: char)
    requires |parts| >= 1
    requires forall i :: 0 <= i < |parts| ==> sep !in parts[i]
    ensures Split(Join(parts, [sep]), sep) == parts
    decreases |parts|
  {
    if |parts| == 1 {
      SplitWithoutSeparator(parts[0], sep);
    } else {
      SplitJoin(parts[1..], sep);
      SplitAfterFirst(parts[0], Join(parts[1..], [sep]), sep);
      assert [parts[0]] + parts[1..] == parts;
    }
  }

  /** The text `fmt.Fprintf(w, "%v ", x)` writes for each x in turn. */
  function Spaced(toks: seq<string>): string
    decreases |toks|
  {
    if |toks| == 0 then "" else toks[0] + " " + Spaced(toks[1..])
  }

  /** `unicode.IsSpace`: the Latin-1 white space and the characters of
      Unicode's White_Space property above it. */
  predicate IsSpace(c: char) {
    c == ' ' || c == '\t' || c == '\n' || c == '\r' || c == '\U{000B}' || c == '\U{000C}'
    || c == '\U{0085}' || c == '\U{00A0}' || c == '\U{1680}'
    || ('\U{2000}' <= c <= '\U{200A}')
    || c == '\U{2028}' || c == '\U{2029}' || c == '\U{202F}' || c == '\U{205F}' || c == '\U{3000}'
  }

  /** A token `strings.Fields` can return: non-empty, without white space. */
  predicate IsWord(t: string) {
    |t| > 0 && forall i :: 0 <= i < |t| ==> !IsSpace(t[i])
  }

  /** The longest prefix of `s` without white space. */
  function Word(s: string): (w: string)
    ensures HasPrefix(s, w)
    ensures forall i :: 0 <= i < |w| ==> !IsSpace(w[i])
    ensures |w| < |s| ==> IsSpace(s[|w|])
    decreases |s|
  {
    if |s| == 0 || IsSpace(s[0]) then "" else [s[0]] + Word(s[1..])
  }

  /** `strings.Fields`: the maximal runs of non-space characters. */
  function Fields(s: string): (r: seq<string>)
    ensures forall i :: 0 <= i < |r| ==> IsWord(r[i])
    decreases |s|
  {
    if |s| == 0 then []
    else if IsSpace(s[0]) then Fields(s[1..])
    else
      var w := Word(s);
      [w] + Fields(s[|w|..])
  }

  lemma {:induction false} WordOfWord(t: string, rest: string)
    requires IsWord(t)
    requires |rest| == 0 || IsSpace(rest[0])
    ensures Word(t + rest) == t
    decreases |t|
  {
    if |t| > 1 {
      assert (t + rest)[1..] == t[1..] + rest;
      WordOfWord(t[1..], rest);
      assert [t[0]] + t[1..] == t;
    } else {
      assert (t + rest)[1..] == rest;
      assert [t[0]] == t;
    }
  }

  /** Reading back a `"%v "` line with `strings.Fields` or `%s`/`%d` scans
      yields exactly the written tokens when each is a word. */
  lemma {:induction false} FieldsOfSpaced(toks: seq<string>)
    requires forall i :: 0 <= i < |toks| ==> IsWord(toks[i])
    ensures Fields(Spaced(toks)) == toks
    decreases |toks|
  {
    if |toks| > 0 {
      var t := toks[0];
      var rest := Spaced(toks[1..]);
      var s := Spaced(toks);
      assert s == t + (" " + rest);
      WordOfWord(t, " " + rest);
      assert s[|t|..] == " " + rest;
      assert (" " + rest)[1..] == rest;
      FieldsOfSpaced(toks[1..]);
      assert [t] + toks[1..] == toks;
    }
  }

  /** Words joined by single spaces split back into those words. */
  lemma {:induction false} FieldsOfJoined(toks: seq<string>)
    requires forall i :: 0 <= i < |toks| ==> IsWord(toks[i])
    ensures Fields(Join(toks, " ")) == toks
    decreases |toks|
  {
    if |toks| == 1 {
      WordOfWord(toks[0], "");
      assert toks[0] + "" == toks[0];
      assert toks[0][|toks[0]|..] == "";
    } else if |toks| > 1 {
      var t := toks[0];
      var rest := Join(toks[1..], " ");
      var s := Join(toks, " ");
      assert s == t + (" " + rest);
      WordOfWord(t, " " + rest);
      assert s[|t|..] == " " + rest;
      assert (" " + rest)[1..] == rest;
      FieldsOfJoined(toks[1..]);
      assert [t] + toks[1..] == toks;
    }
  }

  /** `strings.Trim(s, cutset)`: drops every leading and trailing character
      of the cut set and nothing else. */
  function Trim(s: string, cut: set<char>): string
    decreases |s|
  {
    if |s| > 0 && s[0] in cut then Trim(s[1..], cut)
    else if |s| > 0 && s[|s| - 1] in cut then Trim(s[..|s| - 1], cut)
    else s
  }

  /** Number of leading cut-set characters. */
  function LeadingCut(s: string, cut: set<char>): (n: nat)
    ensures n <= |s|
    decreases |s|
  {
    if |s| > 0 && s[0] in cut then 1 + LeadingCut(s[1..], cut) else 0
  }

  /** What `Trim` keeps: the run of `s` after the leading cut-set characters
      and before the trailing ones; neither end of it is in the cut set. */
  ghost predicate TrimmedRun(s: string, cut: set<char>, n: nat, r: string) {
    && n + |r| <= |s|
    && r == s[n..n + |r|]
    && (forall k :: 0 <= k < n ==> s[k] in cut)
    && (forall k :: n + |r| <= k < |s| ==> s[k] in cut)
    && (|r| > 0 ==> r[0] !in cut && r[|r| - 1] !in cut)
  }

  lemma TrimRunDropFirst(s: string, cut: set<char>, n: nat, r: string)
    requires |s| > 0 && s[0] in cut
    requires TrimmedRun(s[1..], cut, n, r)
    ensures TrimmedRun(s, cut, n + 1, r)
  {
    assert s[n + 1..n + 1 + |r|] == s[1..][n..n + |r|];
    forall k | 0 < k < n + 1 ensures s[k] in cut {
      assert s[k] == s[1..][k - 1];
    }
    forall k | n + 1 + |r| <= k < |s| ensures s[k] in cut {
      assert s[k] == s[1..][k - 1];
    }
  }

  lemma TrimRunDropLast(s: string, cut: set<char>, r: string)
    requires |s| > 0 && s[|s| - 1] in cut
    requires TrimmedRun(s[..|s| - 1], cut, 0, r)
    ensures TrimmedRun(s, cut, 0, r)
  {
    assert s[0..|r|] == s[..|s| - 1][0..|r|];
    forall k | |r| <= k < |s| ensures s[k] in cut {
      if k < |s| - 1 {
        assert s[k] == s[..|s| - 1][k];
      }
    }
  }

  lemma {:induction false} TrimSpec(s: string, cut: set<char>)
    ensures TrimmedRun(s, cut, LeadingCut(s, cut), Trim(s, cut))
    decreases |s|
  {
    if |s| > 0 && s[0] in cut {
      TrimSpec(s[1..], cut);
      TrimRunDropFirst(s, cut, LeadingCut(s[1..], cut), Trim(s, cut));
    } else if |s| > 0 && s[|s| - 1] in cut {
      var s' := s[..|s| - 1];
      TrimSpec(s', cut);
      assert LeadingCut(s', cut) == 0 by {
        assert s'[0] == s[0];
      }
      TrimRunDropLast(s, cut, Trim(s, cut));
    } else {
      assert s[0..|s|] == s;
    }
  }

  /** A text whose ends are outside the cut set is left as it is. */
  lemma TrimKeeps(s: string, cut: set<char>)
    requires |s| == 0 || (s[0] !in cut && s[|s| - 1] !in cut)
    ensures Trim(s, cut) == s
  {
  }

  /** `strings.Replace(s, pat, rep, -1)`: every non-overlapping occurrence,
      from left to right. */
  function ReplaceAll(s: string, pat: string, rep: string): string
    requires |pat| > 0
    decreases |s|
  {
    if |s| == 0 then ""
    else if HasPrefix(s, pat) then rep + ReplaceAll(s[|pat|..], pat, rep)
    else [s[0]] + ReplaceAll(s[1..], pat, rep)
  }

  lemma {:induction false} ReplaceAbsent(s: string, pat: string, rep: string)
    requires |pat| > 0
    requires !Contains(s, pat)
    ensures ReplaceAll(s, pat, rep) == s
    decreases |s|
  {
    if |s| > 0 {
      ReplaceAbsent(s[1..], pat, rep);
      assert [s[0]] + s[1..] == s;
    }
  }

  predicate IsDigit(c: char) {
    '0' <= c <= '9'
  }

  predicate AllDigits(s: string) {
    forall i :: 0 <= i < |s| ==> IsDigit(s[i])
  }

  function DigitChar(d: nat): (c: char)
    requires d < 10
    ensures IsDigit(c)
  {
    ('0' as int + d) as char
  }

  function DigitValue(c: char): nat
    requires IsDigit(c)
  {
    c as int - '0' as int
  }

  /** Decimal digits of a natural number, most significant first. */
  function NatText(n: nat): (s: string)
    ensures |s| > 0 && AllDigits(s)
    decreases n
  {
    if n < 10 then [DigitChar(n)] else NatText(n / 10) + [DigitChar(n % 10)]
  }

  /** `strconv.Itoa`. */
  function Itoa(n: int): string {
    if n < 0 then "-" + NatText(-n) else NatText(n)
  }

  function DigitsValue(s: string): nat
    requires AllDigits(s)
    decreases |s|
  {
    if |s| == 0 then 0 else DigitsValue(s[..|s| - 1]) * 10 + DigitValue(s[|s| - 1])
  }

  /** `strconv.Atoi` (the 64-bit range check is not modelled): an optional
      sign followed by at least one decimal digit. */
  function Atoi(s: string): Option<int> {
    if |s| > 0 && (s[0] == '-' || s[0] == '+') then
      if |s| > 1 && AllDigits(s[1..]) then
        Some(if s[0] == '-' then -(DigitsValue(s[1..]) as int) else DigitsValue(s[1..]))
      else None
    else if |s| > 0 && AllDigits(s) then Some(DigitsValue(s))
    else None
  }

  lemma {:induction false} NatTextValue(n: nat)
    ensures DigitsValue(NatText(n)) == n
    decreases n
  {
    if n >= 10 {
      NatTextValue(n / 10);
      var s := NatText(n);
      assert s[..|s| - 1] == NatText(n / 10);
    }
  }

  /** `strconv.Atoi` reads back what `strconv.Itoa` writes. */
  lemma AtoiItoa(n: int)
    ensures Atoi(Itoa(n)) == Some(n)
  {
    if n < 0 {
      NatTextValue(-n);
      assert Itoa(n)[1..] == NatText(-n);
    } else {
      NatTextValue(n);
    }
  }

  /** A decimal holds only digits and, first, a minus sign. */
  lemma ItoaChars(n: int)
    ensures forall i :: 0 <= i < |Itoa(n)| ==> IsDigit(Itoa(n)[i]) || Itoa(n)[i] == '-'
  {
    var s := Itoa(n);
    if n < 0 {
      assert forall i :: 1 <= i < |s| ==> s[i] == NatText(-n)[i - 1];
    }
  }

  /** A decimal is a non-empty token free of the separators the file formats
      use, and is never the unset marker. */
  lemma ItoaIsToken(n: int)
    ensures IsWord(Itoa(n))
    ensures ',' !in Itoa(n) && ' ' !in Itoa(n) && '\t' !in Itoa(n)
    ensures Itoa(n) != "*" && Itoa(n) != ""
  {
    var s := Itoa(n);
    if n < 0 {
      assert s[0] == '-';
      assert forall i :: 1 <= i < |s| ==> s[i] == NatText(-n)[i - 1];
    }
    assert s[0] != '*';
  }

  /** The position of the dot that starts the extension: scanning down
      from position i - 1, the first dot met before a slash. */
  function ExtDot(path: string, i: nat): (r: Option<nat>)
    requires i <= |path|
    ensures r.Some? ==> r.value < i && path[r.value] == '.'
    ensures r.Some? ==> forall k :: r.value < k < i ==> path[k] != '.' && path[k] != '/'
    ensures r.None? ==> forall k :: 0 <= k < i && path[k] == '.' ==> '/' in path[k + 1..i]
    decreases i
  {
    if i == 0 || path[i - 1] == '/' then None
    else if path[i - 1] == '.' then Some(i - 1)
    else
      var r := ExtDot(path, i - 1);
      assert r.None? ==> forall k :: 0 <= k < i && path[k] == '.' ==> '/' in path[k + 1..i] by {
        if r.None? {
          forall k | 0 <= k < i && path[k] == '.' ensures '/' in path[k + 1..i] {
            assert k < i - 1;
            assert '/' in path[k + 1..i - 1];
            var m :| k + 1 <= m < i - 1 && path[m] == '/';
            assert path[k + 1..i][m - (k + 1)] == '/';
          }
        }
      }
      r
  }

  /** `filepath.Ext` on a slash-separated path: the suffix from the final
      dot of the last path element, or empty. */
  function Ext(path: string): (e: string)
    ensures HasSuffix(path, e)
    ensures e == "" || (e[0] == '.' && '/' !in e && '.' !in e[1..])
  {
    match ExtDot(path, |path|)
    case None => ""
    case Some(d) =>
      assert forall c :: c in path[d..][1..] ==> c != '.' && c != '/';
      path[d..]
  }

  /** `strings.TrimSuffix(path, filepath.Ext(path))`. */
  function StripExt(path: string): (base: string)
    ensures base + Ext(path) == path
  {
    path[..|path| - |Ext(path)|]
  }
}
