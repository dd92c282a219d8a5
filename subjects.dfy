/**
 * The string helpers of the threading script: the subject grouping key,
 * the reply/forward/new classification and the folder-safe name
 * (improved.py, lines 25-43).
 */
module Subjects {

  /** Python's notion of whitespace on `str`: the characters `str.isspace`
    * accepts, which are also the ones `str.strip()` removes and the
    * regular-expression class `\s` matches. */
  const PythonWhitespace: set<char> := {
    '\t', '\n', '\U{0B}', '\U{0C}', '\r', '\U{1C}', '\U{1D}', '\U{1E}', '\U{1F}', ' ',
    '\U{85}', '\U{A0}', '\U{1680}',
    '\U{2000}', '\U{2001}', '\U{2002}', '\U{2003}', '\U{2004}', '\U{2005}',
    '\U{2006}', '\U{2007}', '\U{2008}', '\U{2009}', '\U{200A}',
    '\U{2028}', '\U{2029}', '\U{202F}', '\U{205F}', '\U{3000}'
  }

  predicate IsSpace(c: char)
  {
    c in PythonWhitespace
  }

  /** Length of the whitespace run at the front of `s`. */
  function LeadingSpace(s: string): (n: nat)
    ensures n <= |s|
  {
    if s == [] || !IsSpace(s[0]) then 0 else 1 + LeadingSpace(s[1..])
  }

  /** Length of the whitespace run at the back of `s`. */
  function TrailingSpace(s: string): (n: nat)
    ensures n <= |s|
  {
    if s == [] || !IsSpace(s[|s| - 1]) then 0 else 1 + TrailingSpace(s[..|s| - 1])
  }

  /** The run `LeadingSpace` measures is all whitespace and cannot be longer. */
  lemma {:induction false} LeadingSpaceMeaning(s: string)
    ensures forall i :: 0 <= i < LeadingSpace(s) ==> IsSpace(s[i])
    ensures LeadingSpace(s) < |s| ==> !IsSpace(s[LeadingSpace(s)])
  {
    if s != [] && IsSpace(s[0]) {
      LeadingSpaceMeaning(s[1..]);
    }
  }

  /** The run `TrailingSpace` measures is all whitespace and cannot be longer. */
  lemma {:induction false} TrailingSpaceMeaning(s: string)
    ensures forall i :: |s| - TrailingSpace(s) <= i < |s| ==> IsSpace(s[i])
    ensures TrailingSpace(s) < |s| ==> !IsSpace(s[|s| - 1 - TrailingSpace(s)])
  {
    if s != [] && IsSpace(s[|s| - 1]) {
      TrailingSpaceMeaning(s[..|s| - 1]);
    }
  }

  /** The whitespace run at the front of `s` is exactly `n` long. */
  lemma {:induction false} LeadingSpaceIs(s: string, n: nat)
    requires n <= |s| && forall i :: 0 <= i < n ==> IsSpace(s[i])
    requires n < |s| ==> !IsSpace(s[n])
    ensures LeadingSpace(s) == n
  {
    if n > 0 {
      LeadingSpaceIs(s[1..], n - 1);
    }
  }

  /** `s.strip()`: the slice of `s` left after dropping whitespace at both
    * ends; `StripMeaning` states it. */
  function Strip(s: string): string
  {
    var u := s[LeadingSpace(s)..];
    u[..|u| - TrailingSpace(u)]
  }

  /** `Strip` keeps a contiguous slice of `s`, drops only whitespace around it,
    * and the slice neither starts nor ends with whitespace. */
  lemma StripMeaning(s: string)
    ensures LeadingSpace(s) + |Strip(s)| <= |s|
    ensures Strip(s) == s[LeadingSpace(s)..LeadingSpace(s) + |Strip(s)|]
    ensures forall i :: 0 <= i < LeadingSpace(s) ==> IsSpace(s[i])
    ensures forall i :: LeadingSpace(s) + |Strip(s)| <= i < |s| ==> IsSpace(s[i])
    ensures Strip(s) == [] || (!IsSpace(Strip(s)[0]) && !IsSpace(Strip(s)[|Strip(s)| - 1]))
  {
    var u := s[LeadingSpace(s)..];
    LeadingSpaceMeaning(s);
    TrailingSpaceMeaning(u);
  }

  /** A string whose ends are not whitespace is left alone by `Strip`. */
  lemma StripStripped(s: string)
    requires s == [] || (!IsSpace(s[0]) && !IsSpace(s[|s| - 1]))
    ensures Strip(s) == s
  {
    assert LeadingSpace(s) == 0;
    assert TrailingSpace(s) == 0;
  }

  /** Blanks followed by a stripped remainder strip to that remainder. */
  lemma StripAfterBlanks(s: string, n: nat)
    requires n < |s| && forall i :: 0 <= i < n ==> IsSpace(s[i])
    requires !IsSpace(s[n]) && !IsSpace(s[|s| - 1])
    ensures Strip(s) == s[n..]
  {
    LeadingSpaceIs(s, n);
    assert TrailingSpace(s[n..]) == 0;
  }

  /** Lower-casing as far as the prefixes below are concerned: only the ASCII
    * capitals change (no other character lower-cases to `r`, `e`, `f`, `w`,
    * `d` or `:`). */
  function Fold(c: char): char
  {
    if 'A' <= c <= 'Z' then (c as int + 32) as char else c
  }

  /** `s.lower().startswith(p)` for a lower-case ASCII pattern `p`; equally, a
    * case-insensitive match of `p` anchored at the start of `s`. */
  predicate HasPrefixFold(s: string, p: string)
  {
    |p| <= |s| && forall i :: 0 <= i < |p| ==> Fold(s[i]) == p[i]
  }

  /** Length of the alternation `Re:|Fwd:|FW:` (tried in that order, any case)
    * matched at the start of `t`, or 0 when none matches. */
  function PrefixLength(t: string): (n: nat)
    ensures n <= |t|
  {
    if HasPrefixFold(t, "re:") then 3
    else if HasPrefixFold(t, "fwd:") then 4
    else if HasPrefixFold(t, "fw:") then 3
    else 0
  }

  /** `normalize_subject`: strip the subject, then remove one leading
    * `Re:`/`Fwd:`/`FW:` (any case) with the whitespace that follows it.
    * What the key is, is stated by `NormalizeSubjectMeaning`. */
  function NormalizeSubject(subject: string): string
  {
    var t := Strip(subject);
    var k := PrefixLength(t);
    if k == 0 then t else t[k + LeadingSpace(t[k..])..]
  }

  /** The grouping key is the stripped subject, less its prefix and the
    * whitespace after that prefix when it has one, and is itself stripped. */
  lemma NormalizeSubjectMeaning(subject: string)
    // the key is a suffix of the stripped subject ...
    ensures |NormalizeSubject(subject)| <= |Strip(subject)|
    ensures NormalizeSubject(subject) == Strip(subject)[|Strip(subject)| - |NormalizeSubject(subject)|..]
    // ... which is the whole stripped subject when it has no prefix ...
    ensures PrefixLength(Strip(subject)) == 0 ==> NormalizeSubject(subject) == Strip(subject)
    // ... and otherwise lacks exactly the prefix and the whitespace after it
    ensures PrefixLength(Strip(subject)) > 0 ==>
              PrefixLength(Strip(subject)) <= |Strip(subject)| - |NormalizeSubject(subject)| &&
              forall i :: PrefixLength(Strip(subject)) <= i < |Strip(subject)| - |NormalizeSubject(subject)| ==>
                IsSpace(Strip(subject)[i])
    // the key itself is stripped
    ensures var r := NormalizeSubject(subject); r == [] || (!IsSpace(r[0]) && !IsSpace(r[|r| - 1]))
  {
    var t, r := Strip(subject), NormalizeSubject(subject);
    StripMeaning(subject);
    var k := PrefixLength(t);
    if k > 0 {
      var u := t[k..];
      var j := k + LeadingSpace(u);
      assert r == t[j..];
      LeadingSpaceMeaning(u);
      forall i | k <= i < j
        ensures IsSpace(t[i])
      {
        assert t[i] == u[i - k];
      }
      if r != [] {
        assert r[0] == u[LeadingSpace(u)];
        assert r[|r| - 1] == t[|t| - 1];
      }
    }
  }

  /** A stripped subject whose prefix of length `k` is followed by `n` blanks
    * has as key what follows the blanks. */
  lemma NormalizePrefixed(t: string, k: nat, n: nat)
    requires PrefixLength(t) == k > 0
    requires k + n < |t| && forall i :: k <= i < k + n ==> IsSpace(t[i])
    requires !IsSpace(t[k + n]) && !IsSpace(t[0]) && !IsSpace(t[|t| - 1])
    ensures NormalizeSubject(t) == t[k + n..]
  {
    StripStripped(t);
    LeadingSpaceIs(t[k..], n);
  }

  /** Normalising again changes the key exactly when the key still starts with
    * a prefix: only the outermost prefix is removed. */
  lemma NormalizeTwice(subject: string)
    ensures NormalizeSubject(NormalizeSubject(subject)) == NormalizeSubject(subject)
        <==> PrefixLength(NormalizeSubject(subject)) == 0
  {
    var r := NormalizeSubject(subject);
    assert r == [] || (!IsSpace(r[0]) && !IsSpace(r[|r| - 1])) by {
      NormalizeSubjectMeaning(subject);
    }
    StripStripped(r);
    var k := PrefixLength(r);
    if k > 0 {
      assert |NormalizeSubject(r)| <= |r| - k;
    }
  }

  /** A non-empty string that neither starts nor ends with whitespace. */
  predicate Trimmed(x: string)
  {
    x != [] && !IsSpace(x[0]) && !IsSpace(x[|x| - 1])
  }

  /** Stacked prefixes: only the outer `Re:` goes, so the key still starts
    * with a reply prefix. */
  lemma NormalizeStackedReplies(x: string)
    requires Trimmed(x)
    ensures NormalizeSubject("Re: Re: " + x) == "Re: " + x
  {
    var s := "Re: Re: " + x;
    assert s[0] == 'R' && s[1] == 'e' && s[2] == ':' && s[3] == ' ' && s[4] == 'R';
    assert s[|s| - 1] == x[|x| - 1];
    assert HasPrefixFold(s, "re:") by {
      assert Fold('R') == 'r' && Fold('e') == 'e' && Fold(':') == ':';
    }
    NormalizePrefixed(s, 3, 1);
    assert s[4..] == "Re: " + x;
  }

  /** A stripped subject without a prefix is its own key. */
  lemma NormalizeBareSubject(s: string)
    requires s == [] || (!IsSpace(s[0]) && !IsSpace(s[|s| - 1]))
    requires PrefixLength(s) == 0
    ensures NormalizeSubject(s) == s
  {
    StripStripped(s);
  }

  /** A forward prefix in upper case goes as well. */
  lemma NormalizeForward(x: string)
    requires Trimmed(x)
    ensures NormalizeSubject("FWD:" + x) == x
  {
    var s := "FWD:" + x;
    assert s[0] == 'F' && s[1] == 'W' && s[2] == 'D' && s[3] == ':' && s[4] == x[0];
    assert s[|s| - 1] == x[|x| - 1];
    assert Fold('F') == 'f' && Fold('W') == 'w' && Fold('D') == 'd' && Fold(':') == ':';
    assert !HasPrefixFold(s, "re:") by { assert Fold(s[0]) != "re:"[0]; }
    assert HasPrefixFold(s, "fwd:");
    NormalizePrefixed(s, 4, 0);
    assert s[4..] == x;
  }

  /** The blanks after a short forward prefix go with it. */
  lemma NormalizeShortForward(x: string)
    requires Trimmed(x)
    ensures NormalizeSubject("fw:  " + x) == x
  {
    var t := "fw:  " + x;
    assert t[0] == 'f' && t[1] == 'w' && t[2] == ':' && t[3] == ' ' && t[4] == ' ' && t[5] == x[0];
    assert t[|t| - 1] == x[|x| - 1];
    assert Fold('f') == 'f' && Fold('w') == 'w' && Fold(':') == ':';
    assert !HasPrefixFold(t, "re:") by { assert Fold(t[0]) != "re:"[0]; }
    assert !HasPrefixFold(t, "fwd:") by { assert Fold(t[2]) != "fwd:"[2]; }
    assert HasPrefixFold(t, "fw:");
    NormalizePrefixed(t, 3, 2);
    assert t[5..] == x;
  }

  /** The message classification returned by `determine_type`. */
  datatype Kind = Reply | Forward | New

  /** `determine_type`: an In-Reply-To header makes a reply whatever the
    * subject; otherwise the raw subject's prefix decides. */
  function DetermineType(subject: string, hasInReplyTo: bool): (k: Kind)
    ensures k == Reply <==> hasInReplyTo || HasPrefixFold(subject, "re:")
    ensures k == Forward <==>
              !hasInReplyTo && !HasPrefixFold(subject, "re:") &&
              (HasPrefixFold(subject, "fwd:") || HasPrefixFold(subject, "fw:"))
    ensures k == New <==> !hasInReplyTo && PrefixLength(subject) == 0
  {
    if hasInReplyTo then Reply
    else if HasPrefixFold(subject, "re:") then Reply
    else if HasPrefixFold(subject, "fwd:") || HasPrefixFold(subject, "fw:") then Forward
    else New
  }

  /** A prefix ending in a colon survives stripping of a subject that does not
    * start with whitespace. */
  lemma PrefixSurvivesStrip(s: string, p: string)
    requires s == [] || !IsSpace(s[0])
    requires |p| > 0 && p[|p| - 1] == ':'
    ensures HasPrefixFold(s, p) <==> HasPrefixFold(Strip(s), p)
  {
    assert LeadingSpace(s) == 0;
    StripMeaning(s);
    var t := Strip(s);
    assert t == s[..|t|];
    if HasPrefixFold(s, p) {
      assert Fold(s[|p| - 1]) == ':';
      assert !IsSpace(s[|p| - 1]);
      assert |p| <= |t|;
      assert forall i :: 0 <= i < |p| ==> t[i] == s[i];
    }
  }

  /** Classification and grouping key agree on a subject with no leading
    * whitespace and no In-Reply-To header: the message is "new" exactly when
    * normalisation leaves its stripped subject unchanged. */
  lemma KindAgreesWithKey(subject: string)
    requires subject == [] || !IsSpace(subject[0])
    ensures DetermineType(subject, false) == New <==> NormalizeSubject(subject) == Strip(subject)
  {
    PrefixSurvivesStrip(subject, "re:");
    PrefixSurvivesStrip(subject, "fwd:");
    PrefixSurvivesStrip(subject, "fw:");
    NormalizeSubjectMeaning(subject);
    var t := Strip(subject);
    if PrefixLength(t) > 0 {
      assert |NormalizeSubject(subject)| <= |t| - 3;
    }
  }

  /** The classification reads the raw subject, the key the stripped one: a
    * leading blank hides the reply prefix from the former only. */
  lemma LeadingBlankHidesPrefix(x: string)
    requires Trimmed(x)
    ensures DetermineType(" Re: " + x, false) == New
    ensures NormalizeSubject(" Re: " + x) == x
  {
    var s := " Re: " + x;
    assert s[0] == ' ' && s[1] == 'R' && s[2] == 'e' && s[3] == ':' && s[4] == ' ' && s[5] == x[0];
    assert s[|s| - 1] == x[|x| - 1];
    assert Fold(' ') == ' ';
    assert !HasPrefixFold(s, "re:") by { assert Fold(s[0]) != "re:"[0]; }
    assert !HasPrefixFold(s, "fwd:") by { assert Fold(s[0]) != "fwd:"[0]; }
    assert !HasPrefixFold(s, "fw:") by { assert Fold(s[0]) != "fw:"[0]; }
    StripAfterBlanks(s, 1);
    var t := s[1..];
    assert t == "Re: " + x;
    assert HasPrefixFold(t, "re:") by {
      assert Fold('R') == 'r' && Fold('e') == 'e' && Fold(':') == ':';
    }
    assert t[3] == ' ' && t[4] == x[0];
    LeadingSpaceIs(t[3..], 1);
    assert t[4..] == x;
  }

  /** Longest folder name `safe_folder_name` produces. */
  const MaxFolderName: nat := 50

  /** The characters that may not appear in a folder name. */
  predicate Forbidden(c: char)
  {
    c == '<' || c == '>' || c == ':' || c == '"' || c == '/' || c == '\\' || c == '|' || c == '?' || c == '*'
  }

  /** The `re.sub` of `safe_folder_name`: every forbidden character becomes `_`. */
  function ReplaceForbidden(s: string): (r: string)
    ensures |r| == |s|
    ensures forall i :: 0 <= i < |s| && Forbidden(s[i]) ==> r[i] == '_'
    ensures forall i :: 0 <= i < |s| && !Forbidden(s[i]) ==> r[i] == s[i]
  {
    if s == [] then [] else [if Forbidden(s[0]) then '_' else s[0]] + ReplaceForbidden(s[1..])
  }

  /** `safe_folder_name`: forbidden characters replaced, cut to 50 characters. */
  function SafeFolderName(name: string): (r: string)
    ensures |r| == if |name| < MaxFolderName then |name| else MaxFolderName
    ensures forall i :: 0 <= i < |r| ==> !Forbidden(r[i])
    ensures forall i :: 0 <= i < |r| && !Forbidden(name[i]) ==> r[i] == name[i]
    ensures forall i :: 0 <= i < |r| && Forbidden(name[i]) ==> r[i] == '_'
  {
    var t := ReplaceForbidden(name);
    if |t| <= MaxFolderName then t else t[..MaxFolderName]
  }

  /** A folder-safe name is its own folder-safe name. */
  lemma SafeFolderNameIdempotent(name: string)
    ensures SafeFolderName(SafeFolderName(name)) == SafeFolderName(name)
  {
    var r := SafeFolderName(name);
    var rr := SafeFolderName(r);
    assert |rr| == |r|;
    forall i | 0 <= i < |r| ensures rr[i] == r[i] {
    }
  }
}
