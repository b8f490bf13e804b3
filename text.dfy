/**
 * The string operations the cleaning rules use, with the meaning Python's `str`
 * methods and `re.sub` give them, restricted to ASCII characters: letters other
 * than `A`-`Z` and `a`-`z` have no case here.
 */
module Text {

  predicate IsUpper(c: char) { 'A' <= c <= 'Z' }

  predicate IsLower(c: char) { 'a' <= c <= 'z' }

  /** A character that has a case. */
  predicate IsCased(c: char) { IsUpper(c) || IsLower(c) }

  /** What `\d` matches in a regular expression. */
  predicate IsDigit(c: char) { '0' <= c <= '9' }

  /**
   * What `str.isspace` accepts, and so what `str.strip()` removes: space, tab
   * to carriage return, the separators 0x1C to 0x1F, next line (0x85),
   * no-break space (0xA0) and the other Unicode space and separator characters.
   */
  predicate IsSpace(c: char) {
    c == ' ' || '\t' <= c <= '\r' || '\U{1C}' <= c <= '\U{1F}' || c == '\U{85}' || c == '\U{A0}' ||
    c == '\U{1680}' || '\U{2000}' <= c <= '\U{200A}' || c == '\U{2028}' || c == '\U{2029}' ||
    c == '\U{202F}' || c == '\U{205F}' || c == '\U{3000}'
  }

  predicate IsApostrophe(c: char) { c == '\'' }

  function ToLower(c: char): (d: char)
    ensures !IsUpper(d) && IsCased(d) == IsCased(c)
    ensures IsDigit(d) == IsDigit(c) && (d == '\n') == (c == '\n')
    ensures IsUpper(c) || d == c
  {
    if IsUpper(c) then (c as int + 32) as char else c
  }

  function ToUpper(c: char): (d: char)
    ensures !IsLower(d) && IsCased(d) == IsCased(c)
    ensures IsDigit(d) == IsDigit(c) && (d == '\n') == (c == '\n')
    ensures ToLower(d) == ToLower(c)
  {
    if IsLower(c) then (c as int - 32) as char else c
  }

  predicate NoUpper(s: string) {
    forall i :: 0 <= i < |s| ==> !IsUpper(s[i])
  }

  /** `str.lower()`. */
  function Lower(s: string): (r: string)
    ensures |r| == |s| && NoUpper(r)
    ensures forall i :: 0 <= i < |s| ==> r[i] == ToLower(s[i])
    ensures NoUpper(s) ==> r == s
  {
    seq(|s|, i requires 0 <= i < |s| => ToLower(s[i]))
  }

  /**
   * The title-casing loop of `str.title()`, started as if the character before
   * `s` were cased exactly when `afterCased` holds.
   */
  function TitleFrom(s: string, afterCased: bool): (r: string)
    ensures |r| == |s|
    ensures forall i :: 0 <= i < |s| ==>
      r[i] == if (if i == 0 then afterCased else IsCased(s[i - 1])) then ToLower(s[i]) else ToUpper(s[i])
    decreases |s|
  {
    if s == [] then []
    else [if afterCased then ToLower(s[0]) else ToUpper(s[0])] + TitleFrom(s[1..], IsCased(s[0]))
  }

  /** `str.title()`: a letter is upper-cased when the character before it has no case and lower-cased when it has one. */
  function Title(s: string): (r: string)
    ensures |r| == |s|
    ensures forall i :: 0 <= i < |s| ==>
      r[i] == if i > 0 && IsCased(s[i - 1]) then ToLower(s[i]) else ToUpper(s[i])
  {
    TitleFrom(s, false)
  }

  /** `str.capitalize()`: the first character upper-cased, all the others lower-cased. */
  function Capitalize(s: string): (r: string)
    ensures |r| == |s|
    ensures |r| > 0 ==> !IsLower(r[0]) && NoUpper(r[1..])
    ensures forall i :: 0 <= i < |s| ==> ToLower(r[i]) == ToLower(s[i])
  {
    if s == [] then [] else [ToUpper(s[0])] + Lower(s[1..])
  }

  /** Removes the longest prefix of characters satisfying `p`, as `str.lstrip` does. */
  function TrimStart(s: string, p: char -> bool): (r: string)
    ensures |r| <= |s| && r == s[|s| - |r|..]
    ensures forall i :: 0 <= i < |s| - |r| ==> p(s[i])
    ensures r == [] || !p(r[0])
    decreases |s|
  {
    if s != [] && p(s[0]) then TrimStart(s[1..], p) else s
  }

  /** Removes the longest suffix of characters satisfying `p`, as `str.rstrip` does. */
  function TrimEnd(s: string, p: char -> bool): (r: string)
    ensures |r| <= |s| && r == s[..|r|]
    ensures forall i :: |r| <= i < |s| ==> p(s[i])
    ensures r == [] || !p(r[|r| - 1])
    decreases |s|
  {
    if s != [] && p(s[|s| - 1]) then TrimEnd(s[..|s| - 1], p) else s
  }

  /** Every character of `s` satisfies `p`. */
  predicate All(s: string, p: char -> bool) {
    forall k :: 0 <= k < |s| ==> p(s[k])
  }

  /** What trimming the front cuts off satisfies `p`. */
  lemma TrimStartCut(s: string, p: char -> bool)
    ensures All(s[..|s| - |TrimStart(s, p)|], p)
  {
    var t := s[..|s| - |TrimStart(s, p)|];
    forall k | 0 <= k < |t| ensures p(t[k]) {
      assert t[k] == s[k];
    }
  }

  /** What trimming the end cuts off satisfies `p`. */
  lemma TrimEndCut(s: string, p: char -> bool)
    ensures All(s[|TrimEnd(s, p)|..], p)
  {
    var n := |TrimEnd(s, p)|;
    var t := s[n..];
    forall k | 0 <= k < |t| ensures p(t[k]) {
      assert t[k] == s[n + k];
    }
  }

  /**
   * A prefix of a suffix of `s` is a slice of `s`; when what the suffix leaves
   * out and what follows the prefix in it satisfy `p`, so does everything
   * outside the slice.
   */
  lemma SliceOfSuffix(s: string, front: string, r: string, p: char -> bool)
    requires |front| <= |s| && front == s[|s| - |front|..] && All(s[..|s| - |front|], p)
    requires |r| <= |front| && r == front[..|r|] && All(front[|r|..], p)
    ensures exists i, j :: 0 <= i <= j <= |s| && r == s[i..j] && All(s[..i], p) && All(s[j..], p)
  {
    var i := |s| - |front|;
    assert s[i + |r|..] == front[|r|..];
    assert r == s[i..i + |r|] && All(s[..i], p) && All(s[i + |r|..], p);
  }

  /** `str.strip()`: no white space is left at either end, and nothing changes when there is none. */
  function Strip(s: string): (r: string)
    ensures r == [] || (!IsSpace(r[0]) && !IsSpace(r[|r| - 1]))
    ensures |r| <= |s|
    ensures (s == [] || (!IsSpace(s[0]) && !IsSpace(s[|s| - 1]))) ==> r == s
  {
    var front := TrimStart(s, IsSpace);
    TrimEnd(front, IsSpace)
  }

  /** Stripping keeps one slice of `s`: only white space is removed, and only at the two ends. */
  lemma StripSlice(s: string)
    ensures exists i, j :: 0 <= i <= j <= |s| && Strip(s) == s[i..j] && All(s[..i], IsSpace) && All(s[j..], IsSpace)
  {
    var front := TrimStart(s, IsSpace);
    TrimStartCut(s, IsSpace);
    TrimEndCut(front, IsSpace);
    SliceOfSuffix(s, front, Strip(s), IsSpace);
  }


  /** The part of `s` that `$` in a regular expression ends: all of `s`, or all but a final newline. */
  function BeforeFinalNewline(s: string): string {
    if s != [] && s[|s| - 1] == '\n' then s[..|s| - 1] else s
  }

  /** The regular expression `\d+$` finds a match in `s`. */
  predicate EndsInDigits(s: string) {
    var body := BeforeFinalNewline(s);
    body != [] && IsDigit(body[|body| - 1])
  }

  /**
   * `re.sub(r'\d+$', '', s)`: removes the longest run of digits that ends where
   * `$` matches, which is the end of `s` or, when `s` ends in a newline, just
   * before that newline (the newline itself is kept).
   */
  function RemoveTrailingDigits(s: string): (r: string)
    ensures r == s <==> !EndsInDigits(s)
    ensures EndsInDigits(s) ==>
      exists i, j :: (0 <= i < j <= |s| && r == s[..i] + s[j..]
        && (forall k :: i <= k < j ==> IsDigit(s[k])) && (i == 0 || !IsDigit(s[i - 1]))
        && (s[j..] == [] || s[j..] == "\n"))
    ensures '\n' !in s ==> !EndsInDigits(r)
  {
    var body := BeforeFinalNewline(s);
    var kept := TrimEnd(body, IsDigit);
    var r := kept + s[|body|..];
    assert s == body + s[|body|..];
    assert r == s[..|kept|] + s[|body|..];
    assert EndsInDigits(s) ==> |kept| < |body|;
    assert '\n' !in s ==> body == s && r == kept;
    r
  }

  predicate EndsWith(s: string, suffix: string) {
    |suffix| <= |s| && s[|s| - |suffix|..] == suffix
  }

  /**
   * The county rule: a value ending in `County` loses those six characters and
   * is then stripped of white space; any other value is kept.
   */
  function StripCountySuffix(s: string): (r: string)
    ensures EndsWith(s, "County") ==> r == Strip(s[..|s| - 6])
    ensures !EndsWith(s, "County") ==> r == s
  {
    if EndsWith(s, "County") then Strip(s[..|s| - 6]) else s
  }

  /** A slice of a prefix of `s` is a slice of `s`, with the same parts cut off before and after it. */
  lemma SliceOfPrefix(s: string, head: string, r: string, p: char -> bool)
    requires |head| <= |s| && head == s[..|head|]
    requires exists i, j :: 0 <= i <= j <= |head| && r == head[i..j] && All(head[..i], p) && All(head[j..], p)
    ensures exists i, j :: 0 <= i <= j <= |head| && r == s[i..j] && All(s[..i], p) && All(s[j..|head|], p)
  {
    var i, j :| 0 <= i <= j <= |head| && r == head[i..j] && All(head[..i], p) && All(head[j..], p);
    assert head[i..j] == s[i..j] && head[..i] == s[..i] && head[j..] == s[j..|head|];
  }

  /**
   * On a value ending in `County`, the county rule keeps one slice of what
   * precedes the suffix, and cuts only white space on either side of it.
   */
  lemma CountySuffixSlice(s: string)
    requires EndsWith(s, "County")
    ensures exists i, j :: (0 <= i <= j <= |s| - 6 && StripCountySuffix(s) == s[i..j] &&
      All(s[..i], IsSpace) && All(s[j..|s| - 6], IsSpace))
  {
    var head := s[..|s| - 6];
    StripSlice(head);
    SliceOfPrefix(s, head, Strip(head), IsSpace);
  }

  /** The name rule: trailing digits removed, then capitalized. */
  function CleanName(s: string): (r: string)
    ensures |r| <= |s|
    ensures '\n' !in s ==> !EndsInDigits(r)
    ensures var stripped := RemoveTrailingDigits(s);
      |r| == |stripped| && (|r| > 0 ==> !IsLower(r[0]) && NoUpper(r[1..])) &&
      forall i :: 0 <= i < |r| ==> ToLower(r[i]) == ToLower(stripped[i])
  {
    var stripped := RemoveTrailingDigits(s);
    CapitalizeKeepsTrailingDigits(stripped);
    Capitalize(stripped)
  }

  lemma CapitalizeKeepsTrailingDigits(s: string)
    ensures EndsInDigits(Capitalize(s)) == EndsInDigits(s)
  {
    SameCaseKeepsTrailingDigits(s, Capitalize(s));
  }

  /** Case changes keep digits and newlines, so they keep trailing digits. */
  lemma SameCaseKeepsTrailingDigits(s: string, c: string)
    requires |c| == |s| && forall i :: 0 <= i < |s| ==> ToLower(c[i]) == ToLower(s[i])
    ensures EndsInDigits(c) == EndsInDigits(s)
  {
    if s != [] {
      var n := |s|;
      assert ToLower(c[n - 1]) == ToLower(s[n - 1]);
      if n > 1 {
        assert ToLower(c[n - 2]) == ToLower(s[n - 2]);
      }
    }
  }

  lemma CapitalizeIdempotent(s: string)
    ensures Capitalize(Capitalize(s)) == Capitalize(s)
  {
    var c := Capitalize(s);
    var cc := Capitalize(c);
    forall i | 0 <= i < |s| ensures cc[i] == c[i] {
      if i > 0 {
        assert !IsUpper(c[i]);
      }
    }
  }

  /** Cleaning a name a second time changes nothing, for names without a newline. */
  lemma {:induction false} CleanNameIdempotent(s: string)
    requires '\n' !in s
    ensures CleanName(CleanName(s)) == CleanName(s)
  {
    var c := CleanName(s);
    assert !EndsInDigits(c);
    assert RemoveTrailingDigits(c) == c;
    CapitalizeIdempotent(RemoveTrailingDigits(s));
  }

  lemma CleanNameExample()
    ensures CleanName("John123") == "John"
  {
    var s := "John123";
    assert BeforeFinalNewline(s) == s;
    assert TrimEnd("John", IsDigit) == "John";
    assert TrimEnd(s, IsDigit) == "John" by {
      assert s[..6] == "John12" && s[..6][..5] == "John1" && s[..6][..5][..4] == "John";
    }
    assert RemoveTrailingDigits(s) == "John";
    assert Lower("ohn") == "ohn";
  }

  /**
   * Because `$` also matches before a final newline, a name with an embedded
   * newline can still end in digits after one cleaning, so cleaning is not
   * idempotent on every string.
   */
  lemma CleanNameNewlineCounterexample()
    ensures CleanName("a1\n2") == "A1\n"
    ensures CleanName(CleanName("a1\n2")) == "A\n"
  {
    FirstNameCleaning();
    SecondNameCleaning();
  }

  /** The final `2` goes; the `1` before the newline stays. */
  lemma FirstNameCleaning()
    ensures CleanName("a1\n2") == "A1\n"
  {
    var s := "a1\n2";
    assert BeforeFinalNewline(s) == s;
    assert TrimEnd("a1\n", IsDigit) == "a1\n";
    assert TrimEnd(s, IsDigit) == "a1\n" by {
      assert s[..3] == "a1\n";
    }
    assert RemoveTrailingDigits(s) == "a1\n";
    assert Lower("1\n") == "1\n";
    assert Capitalize("a1\n") == "A1\n";
  }

  /** Now `$` matches before the final newline, and the `1` goes. */
  lemma SecondNameCleaning()
    ensures CleanName("A1\n") == "A\n"
  {
    var t := "A1\n";
    assert BeforeFinalNewline(t) == "A1";
    assert TrimEnd("A", IsDigit) == "A";
    assert TrimEnd("A1", IsDigit) == "A" by {
      assert "A1"[..1] == "A";
    }
    assert t[2..] == "\n";
    assert RemoveTrailingDigits(t) == "A\n";
    assert Lower("\n") == "\n";
  }

  lemma CountyExamples()
    ensures StripCountySuffix("Jefferson County") == "Jefferson"
    ensures StripCountySuffix("Dade") == "Dade"
    ensures StripCountySuffix("County") == ""
  {
    assert "Jefferson County"[..10] == "Jefferson ";
    assert TrimStart("Jefferson ", IsSpace) == "Jefferson ";
    assert TrimEnd("Jefferson ", IsSpace) == "Jefferson" by {
      assert "Jefferson "[..9] == "Jefferson";
      assert TrimEnd("Jefferson", IsSpace) == "Jefferson";
    }
    assert !EndsWith("Dade", "County");
  }

  /** Lower-casing before title-casing changes nothing: `str.title()` ignores the case it is given. */
  lemma TitleOfLower(s: string)
    ensures Title(Lower(s)) == Title(s)
  {
    var l := Lower(s);
    forall i | 0 <= i < |s| ensures Title(l)[i] == Title(s)[i] {
      assert l[i] == ToLower(s[i]);
      if i > 0 {
        assert l[i - 1] == ToLower(s[i - 1]);
      }
    }
  }
}
