/**
  The property-path name converter: rewrites a Symfony property path between the
  bracket notation used inside the validator ("[d][e]") and the dot notation used on
  the wire ("d.e"). Both directions are single string expressions in the PHP class,
  so they are modelled as total functions on `string`, built from models of the
  library primitives they use (str_replace, trim, explode, implode).
 */
module FieldNameConverter {

  predicate IsBracket(c: char) { c == '[' || c == ']' }

  /** No '[' or ']' anywhere in s. */
  predicate BracketFree(s: string) {
    forall i :: 0 <= i < |s| ==> !IsBracket(s[i])
  }

  /** The two-character separator "][" starts at index i of s. */
  predicate SeparatorAt(s: string, i: int) {
    0 <= i < |s| - 1 && s[i] == ']' && s[i + 1] == '['
  }

  ghost predicate SeparatorFree(s: string) {
    forall i :: !SeparatorAt(s, i)
  }

  /** Number of occurrences of c in s. */
  function Count(c: char, s: string): (n: nat)
    ensures n <= |s|
    ensures n == 0 <==> c !in s
  {
    if s == [] then 0
    else
      assert s == [s[0]] + s[1..];
      (if s[0] == c then 1 else 0) + Count(c, s[1..])
  }

  /** Reference definition: every occurrence of the character d in s replaced by sep. */
  function ReplaceChar(d: char, sep: string, s: string): string
  {
    if s == [] then ""
    else (if s[0] == d then sep else [s[0]]) + ReplaceChar(d, sep, s[1..])
  }

  /** Replacing by a two-character separator adds one character per occurrence. */
  lemma {:induction false} ReplaceCharLength(d: char, sep: string, s: string)
    requires |sep| == 2
    ensures |ReplaceChar(d, sep, s)| == |s| + Count(d, s)
  {
    if s != [] {
      ReplaceCharLength(d, sep, s[1..]);
    }
  }

  /** No occurrence of d is left once each has been replaced by a d-free separator. */
  lemma {:induction false} ReplaceCharRemovesAll(d: char, sep: string, s: string)
    requires d !in sep
    ensures d !in ReplaceChar(d, sep, s)
  {
    if s != [] {
      ReplaceCharRemovesAll(d, sep, s[1..]);
    }
  }

  /**
    str_replace('][', '.', s): scans s from the left and replaces each non-overlapping
    occurrence of the separator "][" by a dot.
   */
  function ReplaceSeparators(s: string): (r: string)
    ensures |r| <= |s|
    ensures |s| > 0 ==> |r| > 0 && r[0] == (if SeparatorAt(s, 0) then '.' else s[0])
    ensures SeparatorFree(r)
  {
    if |s| >= 2 && s[0] == ']' && s[1] == '[' then
      var rest := ReplaceSeparators(s[2..]);
      assert forall i :: SeparatorAt("." + rest, i) ==> SeparatorAt(rest, i - 1);
      "." + rest
    else if s == [] then ""
    else
      var rest := ReplaceSeparators(s[1..]);
      assert forall i :: SeparatorAt([s[0]] + rest, i) ==> SeparatorAt(rest, i - 1);
      [s[0]] + rest
  }

  /** ltrim(s, '[]'): drops the longest prefix made of brackets. */
  function TrimLeft(s: string): (r: string)
    ensures |r| <= |s| && r == s[|s| - |r|..]
    ensures forall i :: 0 <= i < |s| - |r| ==> IsBracket(s[i])
    ensures r == [] || !IsBracket(r[0])
    ensures SeparatorFree(s) ==> SeparatorFree(r)
  {
    if s != [] && IsBracket(s[0]) then
      var r := TrimLeft(s[1..]);
      assert forall i :: SeparatorAt(r, i) ==> SeparatorAt(s, i + (|s| - |r|));
      r
    else s
  }

  /** rtrim(s, '[]'): drops the longest suffix made of brackets. */
  function TrimRight(s: string): (r: string)
    ensures |r| <= |s| && r == s[..|r|]
    ensures forall i :: |r| <= i < |s| ==> IsBracket(s[i])
    ensures r == [] || !IsBracket(r[|r| - 1])
    ensures SeparatorFree(s) ==> SeparatorFree(r)
  {
    if s != [] && IsBracket(s[|s| - 1]) then
      var r := TrimRight(s[..|s| - 1]);
      assert forall i :: SeparatorAt(r, i) ==> SeparatorAt(s, i);
      r
    else s
  }

  /** trim(s, '[]'): brackets removed from both ends. */
  function Trim(s: string): (r: string)
    ensures |r| <= |s|
    ensures r == [] || (!IsBracket(r[0]) && !IsBracket(r[|r| - 1]))
    ensures SeparatorFree(s) ==> SeparatorFree(r)
    ensures BracketFree(s) ==> r == s
  {
    TrimRight(TrimLeft(s))
  }

  /** explode(d, s): the pieces of s between the occurrences of d; never empty. */
  function Explode(d: char, s: string): (parts: seq<string>)
    ensures |parts| == Count(d, s) + 1
    ensures forall i :: 0 <= i < |parts| ==> d !in parts[i]
  {
    if s == [] then [""]
    else
      var rest := Explode(d, s[1..]);
      if s[0] == d then [""] + rest
      else [[s[0]] + rest[0]] + rest[1..]
  }

  /** implode(sep, parts): the parts joined with sep in between. */
  function Implode(sep: string, parts: seq<string>): string
  {
    if parts == [] then ""
    else if |parts| == 1 then parts[0]
    else parts[0] + sep + Implode(sep, parts[1..])
  }

  /** normalize: bracket notation to dot notation, "[d][e]" becomes "d.e". */
  function Normalize(propertyName: string): (r: string)
    ensures |r| <= |propertyName|
    ensures r == [] || (!IsBracket(r[0]) && !IsBracket(r[|r| - 1]))
    ensures SeparatorFree(r)
  {
    Trim(ReplaceSeparators(propertyName))
  }

  /** denormalize: dot notation to bracket notation, "b.c" becomes "[b][c]". */
  function Denormalize(propertyName: string): (r: string)
    ensures |r| == |propertyName| + 2 + Count('.', propertyName)
    ensures r[0] == '[' && r[|r| - 1] == ']'
    ensures '.' !in r
  {
    ImplodeExplode('.', "][", propertyName);
    ReplaceCharLength('.', "][", propertyName);
    ReplaceCharRemovesAll('.', "][", propertyName);
    "[" + Implode("][", Explode('.', propertyName)) + "]"
  }

  // ---------------------------------------------------------------------------
  // explode / implode

  /** Prefixing the first part prefixes the joined string. */
  lemma ImplodeConsFirst(sep: string, pre: string, parts: seq<string>)
    requires |parts| >= 1
    ensures Implode(sep, [pre + parts[0]] + parts[1..]) == pre + Implode(sep, parts)
  {
    var q := [pre + parts[0]] + parts[1..];
    assert q[1..] == parts[1..];
  }

  /** Joining the pieces of s with sep replaces every d by sep. */
  lemma {:induction false} ImplodeExplode(d: char, sep: string, s: string)
    ensures Implode(sep, Explode(d, s)) == ReplaceChar(d, sep, s)
  {
    if s != [] {
      var rest := Explode(d, s[1..]);
      ImplodeExplode(d, sep, s[1..]);
      if s[0] == d {
        var parts := [""] + rest;
        assert parts[1..] == rest;
        assert Implode(sep, parts) == "" + sep + Implode(sep, rest);
        assert ReplaceChar(d, sep, s) == sep + ReplaceChar(d, sep, s[1..]);
      } else {
        ImplodeConsFirst(sep, [s[0]], rest);
        assert ReplaceChar(d, sep, s) == [s[0]] + ReplaceChar(d, sep, s[1..]);
      }
    }
  }

  /** Exploding a string that starts with a d-free prefix: the prefix lands in the first piece. */
  lemma {:induction false} ExplodePrefix(d: char, pre: string, s: string)
    requires d !in pre
    ensures Explode(d, pre + s) == [pre + Explode(d, s)[0]] + Explode(d, s)[1..]
  {
    var e := Explode(d, s);
    if pre == [] {
      assert pre + s == s && pre + e[0] == e[0];
      assert [e[0]] + e[1..] == e;
    } else {
      assert pre[0] in pre && pre[0] != d;
      assert (pre + s)[0] == pre[0];
      assert (pre + s)[1..] == pre[1..] + s;
      ExplodePrefix(d, pre[1..], s);
      var rest := Explode(d, pre[1..] + s);
      assert rest == [pre[1..] + e[0]] + e[1..];
      assert [pre[0]] + (pre[1..] + e[0]) == pre + e[0];
    }
  }

  /** implode then explode gives back the parts when no part holds the delimiter. */
  lemma {:induction false} ExplodeImplodeRoundTrip(d: char, parts: seq<string>)
    requires |parts| >= 1
    requires forall i :: 0 <= i < |parts| ==> d !in parts[i]
    ensures Explode(d, Implode([d], parts)) == parts
  {
    if |parts| == 1 {
      ExplodePrefix(d, parts[0], "");
      assert parts[0] + "" == parts[0];
    } else {
      var tail := Implode([d], parts[1..]);
      ExplodeImplodeRoundTrip(d, parts[1..]);
      assert Implode([d], parts) == parts[0] + ([d] + tail);
      ExplodePrefix(d, parts[0], [d] + tail);
      assert ([d] + tail)[1..] == tail;
      assert Explode(d, [d] + tail) == [""] + parts[1..];
      assert parts[0] + "" == parts[0];
      assert [parts[0]] + parts[1..] == parts;
    }
  }

  lemma {:induction false} ImplodeBracketFree(sep: string, parts: seq<string>)
    requires BracketFree(sep)
    requires forall i :: 0 <= i < |parts| ==> BracketFree(parts[i])
    ensures BracketFree(Implode(sep, parts))
  {
    if |parts| > 1 {
      ImplodeBracketFree(sep, parts[1..]);
    }
  }

  // ---------------------------------------------------------------------------
  // str_replace and trim on converted paths

  /** Scanning a leading '[' leaves it in place. */
  lemma ReplaceSeparatorsOpen(s: string)
    ensures ReplaceSeparators("[" + s) == "[" + ReplaceSeparators(s)
  {
    assert ("[" + s)[1..] == s;
  }

  lemma ReplaceSeparatorsAtSeparator(t: string)
    ensures ReplaceSeparators("][" + t) == "." + ReplaceSeparators(t)
  {
    assert ("][" + t)[2..] == t;
  }

  lemma ReplaceSeparatorsAtOther(c: char, t: string)
    requires c != ']' || t == [] || t[0] != '['
    ensures ReplaceSeparators([c] + t) == [c] + ReplaceSeparators(t)
  {
    assert ([c] + t)[1..] == t;
  }

  /** One step of the dot expansion, followed by the closing bracket. */
  lemma ReplaceCharStep(w: string)
    requires w != []
    ensures ReplaceChar('.', "][", w) + "]"
         == (if w[0] == '.' then "][" else [w[0]]) + (ReplaceChar('.', "][", w[1..]) + "]")
  {
  }

  /**
    Replacing the separators undoes the expansion of dots into "][", also when the
    expanded text is followed by the closing ']'.
   */
  lemma {:induction false} ReplaceSeparatorsExpanded(w: string)
    requires BracketFree(w)
    ensures ReplaceSeparators(ReplaceChar('.', "][", w) + "]") == w + "]"
  {
    if w == [] {
      assert ReplaceChar('.', "][", w) + "]" == "]";
      ReplaceSeparatorsAtOther(']', "");
    } else {
      var tail := ReplaceChar('.', "][", w[1..]) + "]";
      ReplaceSeparatorsExpanded(w[1..]);
      ReplaceCharStep(w);
      if w[0] == '.' {
        ReplaceSeparatorsAtSeparator(tail);
      } else {
        assert !IsBracket(w[0]);
        ReplaceSeparatorsAtOther(w[0], tail);
      }
      assert [w[0]] + (w[1..] + "]") == w + "]";
    }
  }

  /**
    Partner of str_replace: on a path without dots, expanding every dot of the
    result back into "][" restores the input.
   */
  lemma {:induction false} ExpandReplacedSeparators(s: string)
    requires '.' !in s
    ensures ReplaceChar('.', "][", ReplaceSeparators(s)) == s
  {
    if |s| >= 2 && s[0] == ']' && s[1] == '[' {
      assert '.' !in s[2..] by { assert forall c :: c in s[2..] ==> c in s; }
      ExpandReplacedSeparators(s[2..]);
      assert s == "][" + s[2..];
    } else if s != [] {
      assert '.' !in s[1..] by { assert forall c :: c in s[1..] ==> c in s; }
      ExpandReplacedSeparators(s[1..]);
      assert s[0] in s;
      assert s == [s[0]] + s[1..];
    }
  }

  /** Trimming a bracket-free path wrapped in one pair of brackets gives the path. */
  lemma TrimWrapped(w: string)
    requires BracketFree(w)
    ensures Trim("[" + w + "]") == w
  {
    var s := "[" + w + "]";
    assert s[0] == '[' && s[1..] == w + "]";
    assert TrimLeft(s) == TrimLeft(w + "]");
    if w == [] {
      assert w + "]" == "]";
      assert "]"[1..] == "";
      assert TrimLeft("]") == TrimLeft("");
    } else {
      assert (w + "]")[0] == w[0] && !IsBracket(w[0]);
      assert TrimLeft(w + "]") == w + "]";
      var t := w + "]";
      assert t[|t| - 1] == ']' && t[..|t| - 1] == w;
      assert TrimRight(t) == TrimRight(w);
      assert !IsBracket(w[|w| - 1]);
      assert TrimRight(w) == w;
    }
  }

  // ---------------------------------------------------------------------------
  // The two conversions are inverse on well-formed paths

  /** denormalize produces bracket notation: the dots of w each become "][". */
  lemma DenormalizeExpandsDots(w: string)
    ensures Denormalize(w) == "[" + ReplaceChar('.', "][", w) + "]"
  {
    ImplodeExplode('.', "][", w);
  }

  /**
    Wire to internal and back: any dot path without brackets, including "" and
    paths with empty segments such as "a..b", survives denormalize then normalize.
   */
  lemma NormalizeDenormalize(w: string)
    requires BracketFree(w)
    ensures Normalize(Denormalize(w)) == w
  {
    var e := ReplaceChar('.', "][", w);
    DenormalizeExpandsDots(w);
    assert "[" + e + "]" == "[" + (e + "]");
    ReplaceSeparatorsOpen(e + "]");
    ReplaceSeparatorsExpanded(w);
    assert "[" + (w + "]") == "[" + w + "]";
    TrimWrapped(w);
  }

  /** The segments of an internal path: none holds '.', '[' or ']'. */
  predicate PlainSegments(segs: seq<string>) {
    forall i :: 0 <= i < |segs| ==> '.' !in segs[i] && BracketFree(segs[i])
  }

  /** The internal bracket path "[s1][s2]...[sn]" of the given segments. */
  function BracketPath(segs: seq<string>): (p: string)
    ensures |p| >= 2 && p[0] == '[' && p[|p| - 1] == ']'
  {
    "[" + Implode("][", segs) + "]"
  }

  /** normalize on an internal path joins its segments with dots. */
  lemma {:induction false} NormalizeBracketPath(segs: seq<string>)
    requires |segs| >= 1 && PlainSegments(segs)
    ensures Normalize(BracketPath(segs)) == Implode(".", segs)
  {
    var dotted := Implode(".", segs);
    ExplodeImplodeRoundTrip('.', segs);
    ImplodeExplode('.', "][", dotted);
    ImplodeBracketFree(".", segs);
    var e := Implode("][", segs);
    assert e == ReplaceChar('.', "][", dotted);
    assert BracketPath(segs) == "[" + (e + "]");
    ReplaceSeparatorsOpen(e + "]");
    ReplaceSeparatorsExpanded(dotted);
    assert "[" + (dotted + "]") == "[" + dotted + "]";
    TrimWrapped(dotted);
  }

  /**
    Internal to wire and back: a bracket path with at least one segment, whose
    segments hold no '.', '[' or ']', survives normalize then denormalize.
   */
  lemma DenormalizeNormalize(segs: seq<string>)
    requires |segs| >= 1 && PlainSegments(segs)
    ensures Denormalize(Normalize(BracketPath(segs))) == BracketPath(segs)
  {
    NormalizeBracketPath(segs);
    ExplodeImplodeRoundTrip('.', segs);
  }

  /** The conversion the bundle's normalize test relies on. */
  lemma NormalizeExample()
    ensures Normalize("[d][e]") == "d.e"
  {
    ReplaceSeparatorsAtOther(']', "");
    ReplaceSeparatorsAtOther('e', "]");
    ReplaceSeparatorsAtSeparator("e]");
    ReplaceSeparatorsAtOther('d', "][e]");
    ReplaceSeparatorsOpen("d][e]");
    assert ReplaceSeparators("[d][e]") == "[" + "d.e" + "]";
    TrimWrapped("d.e");
  }

  /** The conversion the bundle's denormalize test relies on. */
  lemma DenormalizeExample()
    ensures Denormalize("b.c") == "[b][c]"
  {
    DenormalizeExpandsDots("b.c");
    assert "b.c"[1..] == ".c" && ".c"[1..] == "c" && "c"[1..] == "";
    assert ReplaceChar('.', "][", "b.c") == "b][c";
  }
}
