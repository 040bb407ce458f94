/**
 * How the repositories clean a colour name before looking it up or storing
 * it: JavaScript's `trim()` followed by `toLowerCase()`, and the
 * map / filter / `Set` pipeline `addBear` runs over its colour list.
 */
module ColorNames {

  /** The characters `String.prototype.trim` strips: white space and line terminators. */
  predicate IsWhiteSpace(c: char)
  {
    || c == '\t' || c == '\n' || c == '\U{B}' || c == '\U{C}' || c == '\r' || c == ' '
    || c == '\U{A0}' || c == '\U{1680}' || ('\U{2000}' <= c <= '\U{200A}')
    || c == '\U{2028}' || c == '\U{2029}' || c == '\U{202F}' || c == '\U{205F}'
    || c == '\U{3000}' || c == '\U{FEFF}'
  }

  /** Neither end of `s` is white space. */
  predicate IsTrimmed(s: string)
  {
    s == [] || (!IsWhiteSpace(s[0]) && !IsWhiteSpace(s[|s| - 1]))
  }

  function TrimStart(s: string): (r: string)
    ensures |r| <= |s| && r == s[|s| - |r|..]
    ensures r == [] || !IsWhiteSpace(r[0])
    ensures (s == [] || !IsWhiteSpace(s[0])) ==> r == s
  {
    if s != [] && IsWhiteSpace(s[0]) then TrimStart(s[1..]) else s
  }

  function TrimEnd(s: string): (r: string)
    ensures |r| <= |s| && r == s[..|r|]
    ensures r == [] || !IsWhiteSpace(r[|r| - 1])
    ensures (s == [] || !IsWhiteSpace(s[|s| - 1])) ==> r == s
  {
    if s != [] && IsWhiteSpace(s[|s| - 1]) then TrimEnd(s[..|s| - 1]) else s
  }

  /** `s.trim()` */
  function Trim(s: string): string
  {
    TrimEnd(TrimStart(s))
  }

  /** `toLowerCase` on one character; only the ASCII letters are modelled. */
  function ToLowerChar(c: char): char
  {
    if 'A' <= c <= 'Z' then (c as int + 32) as char else c
  }

  /** `s.toLowerCase()` */
  function ToLowerCase(s: string): (r: string)
    ensures |r| == |s|
    ensures forall i :: 0 <= i < |s| ==> r[i] == ToLowerChar(s[i])
  {
    if s == [] then [] else [ToLowerChar(s[0])] + ToLowerCase(s[1..])
  }

  /** `c.trim().toLowerCase()` as `addBear` and `deleteColor` write it. */
  function Clean(s: string): string
  {
    ToLowerCase(Trim(s))
  }

  /** `colors.map((c) => c.trim().toLowerCase())` */
  function CleanAll(colors: seq<string>): (r: seq<string>)
    ensures |r| == |colors|
    ensures forall i :: 0 <= i < |colors| ==> r[i] == Clean(colors[i])
  {
    seq(|colors|, i requires 0 <= i < |colors| => Clean(colors[i]))
  }

  /** `.filter((c) => c.length > 0)` */
  function NonEmpty(names: seq<string>): (r: seq<string>)
    ensures forall n :: n in r <==> n in names && n != []
  {
    if names == [] then []
    else if names[0] == [] then NonEmpty(names[1..])
    else [names[0]] + NonEmpty(names[1..])
  }

  /** `Array.from(new Set(names))`: the first occurrence of each name, in order. */
  function Dedup(names: seq<string>): (r: seq<string>)
    ensures forall n :: n in r <==> n in names
    ensures forall i, j :: 0 <= i < j < |r| ==> r[i] != r[j]
  {
    if names == [] then []
    else
      var d := Dedup(names[..|names| - 1]);
      var n := names[|names| - 1];
      assert names == names[..|names| - 1] + [n];
      if n in d then d else d + [n]
  }

  /** The colour names `addBear` actually wants, `wantedNames`. */
  function Normalise(colors: seq<string>): (r: seq<string>)
    ensures forall n :: n in r <==> n in CleanAll(colors) && n != []
    ensures forall i, j :: 0 <= i < j < |r| ==> r[i] != r[j]
  {
    Dedup(NonEmpty(CleanAll(colors)))
  }

  lemma CleanAllMember(colors: seq<string>, n: string)
    ensures n in CleanAll(colors) <==> exists i :: 0 <= i < |colors| && Clean(colors[i]) == n
  {
    var cleaned := CleanAll(colors);
    if n in cleaned {
      var i :| 0 <= i < |cleaned| && cleaned[i] == n;
      assert Clean(colors[i]) == n;
    }
    if exists i :: 0 <= i < |colors| && Clean(colors[i]) == n {
      var i :| 0 <= i < |colors| && Clean(colors[i]) == n;
      assert cleaned[i] == n;
    }
  }

  /**
   * What normalisation promises: a name is wanted iff it is the non-empty
   * cleaned form of one of the given names, and no name is wanted twice.
   */
  lemma NormaliseMembers(colors: seq<string>)
    ensures forall n :: n in Normalise(colors) <==>
      n != [] && exists i :: 0 <= i < |colors| && Clean(colors[i]) == n
    ensures forall i, j :: 0 <= i < j < |Normalise(colors)| ==> Normalise(colors)[i] != Normalise(colors)[j]
  {
    forall n ensures n in Normalise(colors) <==> n != [] && exists i :: 0 <= i < |colors| && Clean(colors[i]) == n
    {
      CleanAllMember(colors, n);
    }
  }

  /** Every wanted name is already clean: no surrounding white space, no upper-case ASCII letter. */
  lemma NormaliseIsClean(colors: seq<string>)
    ensures forall n :: n in Normalise(colors) ==> n != [] && Clean(n) == n
  {
    NormaliseMembers(colors);
    forall n | n in Normalise(colors) ensures Clean(n) == n {
      var i :| 0 <= i < |colors| && Clean(colors[i]) == n;
      CleanIdempotent(colors[i]);
    }
  }

  /** An empty colour list, or one of blank names only, wants no colour. */
  lemma NormaliseBlank(colors: seq<string>)
    requires forall i :: 0 <= i < |colors| ==> Trim(colors[i]) == []
    ensures Normalise(colors) == []
  {
    var cleaned := CleanAll(colors);
    forall i | 0 <= i < |cleaned| ensures cleaned[i] == [] {
      assert |Clean(colors[i])| == |Trim(colors[i])|;
    }
    NonEmptyOfBlanks(cleaned);
  }

  lemma {:induction false} NonEmptyOfBlanks(names: seq<string>)
    requires forall i :: 0 <= i < |names| ==> names[i] == []
    ensures NonEmpty(names) == []
  {
    if names != [] {
      NonEmptyOfBlanks(names[1..]);
    }
  }

  lemma ToLowerCaseKeepsTrimmed(s: string)
    requires IsTrimmed(s)
    ensures IsTrimmed(ToLowerCase(s))
  {
  }

  lemma {:induction false} ToLowerCaseIdempotent(s: string)
    ensures ToLowerCase(ToLowerCase(s)) == ToLowerCase(s)
  {
    var l := ToLowerCase(s);
    assert forall i :: 0 <= i < |l| ==> ToLowerChar(l[i]) == l[i];
  }

  lemma TrimOfTrimmed(s: string)
    requires IsTrimmed(s)
    ensures Trim(s) == s
  {
  }

  /** Cleaning twice is cleaning once, so a cleaned name is found again by a cleaned lookup. */
  lemma CleanIdempotent(s: string)
    ensures Clean(Clean(s)) == Clean(s)
  {
    var t := Trim(s);
    assert IsTrimmed(t);
    ToLowerCaseKeepsTrimmed(t);
    TrimOfTrimmed(ToLowerCase(t));
    ToLowerCaseIdempotent(t);
  }

  /** A clean text has no upper-case ASCII letter. */
  lemma CleanHasNoUpperCase(s: string)
    ensures forall i :: 0 <= i < |Clean(s)| ==> !('A' <= Clean(s)[i] <= 'Z')
  {
  }
}
