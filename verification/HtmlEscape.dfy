/** `escapeHtml`: five whole-string replacement passes, compared with one character-by-character
    substitution, a decoder, and what a browser may find in the output. */
module HtmlEscape {
  /** `s.replace(/c/g, replacement)` for a single character `c`. */
  function ReplaceAll(s: string, c: char, replacement: string): string {
    if s == "" then ""
    else (if s[0] == c then replacement else [s[0]]) + ReplaceAll(s[1..], c, replacement)
  }

  function EscapeHtml(s: string): string {
    var s1 := ReplaceAll(s, '&', "&amp;");
    var s2 := ReplaceAll(s1, '<', "&lt;");
    var s3 := ReplaceAll(s2, '>', "&gt;");
    var s4 := ReplaceAll(s3, '"', "&quot;");
    ReplaceAll(s4, '\'', "&#039;")
  }

  // ---- The single-pass meaning ----

  function Reference(c: char): string {
    if c == '&' then "&amp;"
    else if c == '<' then "&lt;"
    else if c == '>' then "&gt;"
    else if c == '"' then "&quot;"
    else if c == '\'' then "&#039;"
    else [c]
  }

  function Substituted(s: string): string {
    if s == "" then "" else Reference(s[0]) + Substituted(s[1..])
  }

  lemma {:induction false} ReplaceAllConcat(s: string, t: string, c: char, replacement: string)
    ensures ReplaceAll(s + t, c, replacement) == ReplaceAll(s, c, replacement) + ReplaceAll(t, c, replacement)
  {
    if s == "" {
      assert s + t == t;
    } else {
      assert (s + t)[1..] == s[1..] + t;
      ReplaceAllConcat(s[1..], t, c, replacement);
    }
  }

  lemma {:induction false} ReplaceAllAbsent(s: string, c: char, replacement: string)
    requires c !in s
    ensures ReplaceAll(s, c, replacement) == s
  {
    if s != "" {
      ReplaceAllAbsent(s[1..], c, replacement);
    }
  }

  lemma ReplaceAllOne(c: char, d: char, replacement: string)
    ensures ReplaceAll([c], d, replacement) == if c == d then replacement else [c]
  {
    assert [c][1..] == "";
  }

  lemma EscapeOne(c: char)
    ensures EscapeHtml([c]) == Reference(c)
  {
    hide ReplaceAll;
    ReplaceAllOne(c, '&', "&amp;");
    ReplaceAllOne(c, '<', "&lt;");
    ReplaceAllOne(c, '>', "&gt;");
    ReplaceAllOne(c, '"', "&quot;");
    ReplaceAllOne(c, '\'', "&#039;");
    if c == '&' {
      ReplaceAllAbsent("&amp;", '<', "&lt;");
      ReplaceAllAbsent("&amp;", '>', "&gt;");
      ReplaceAllAbsent("&amp;", '"', "&quot;");
      ReplaceAllAbsent("&amp;", '\'', "&#039;");
    } else if c == '<' {
      ReplaceAllAbsent("&lt;", '>', "&gt;");
      ReplaceAllAbsent("&lt;", '"', "&quot;");
      ReplaceAllAbsent("&lt;", '\'', "&#039;");
    } else if c == '>' {
      ReplaceAllAbsent("&gt;", '"', "&quot;");
      ReplaceAllAbsent("&gt;", '\'', "&#039;");
    } else if c == '"' {
      ReplaceAllAbsent("&quot;", '\'', "&#039;");
    }
  }

  lemma EscapeConcat(s: string, t: string)
    ensures EscapeHtml(s + t) == EscapeHtml(s) + EscapeHtml(t)
  {
    hide ReplaceAll;
    ReplaceAllConcat(s, t, '&', "&amp;");
    var s1, t1 := ReplaceAll(s, '&', "&amp;"), ReplaceAll(t, '&', "&amp;");
    ReplaceAllConcat(s1, t1, '<', "&lt;");
    var s2, t2 := ReplaceAll(s1, '<', "&lt;"), ReplaceAll(t1, '<', "&lt;");
    ReplaceAllConcat(s2, t2, '>', "&gt;");
    var s3, t3 := ReplaceAll(s2, '>', "&gt;"), ReplaceAll(t2, '>', "&gt;");
    ReplaceAllConcat(s3, t3, '"', "&quot;");
    ReplaceAllConcat(ReplaceAll(s3, '"', "&quot;"), ReplaceAll(t3, '"', "&quot;"), '\'', "&#039;");
  }

  /** The five passes equal one substitution: no pass touches what an earlier one produced. */
  lemma {:induction false} PassesAreOneSubstitution(s: string)
    ensures EscapeHtml(s) == Substituted(s)
  {
    if s != "" {
      hide EscapeHtml;
      assert s == [s[0]] + s[1..];
      EscapeConcat([s[0]], s[1..]);
      EscapeOne(s[0]);
      PassesAreOneSubstitution(s[1..]);
    }
  }

  // ---- What the output may contain ----

  predicate StartsWithReference(s: string) {
    "&amp;" <= s || "&lt;" <= s || "&gt;" <= s || "&quot;" <= s || "&#039;" <= s
  }

  predicate InertAt(t: string, i: nat)
    requires i < |t|
  {
    && t[i] != '<' && t[i] != '>' && t[i] != '"' && t[i] != '\''
    && (t[i] == '&' ==> StartsWithReference(t[i..]))
  }

  lemma ReferenceIsInert(c: char, rest: string, i: nat)
    requires i < |Reference(c)|
    ensures InertAt(Reference(c) + rest, i)
  {
    var r := Reference(c);
    var t := r + rest;
    assert t[i] == r[i];
    if i == 0 {
      assert t[0..] == t && r <= t;
    }
  }

  lemma InertAfter(r: string, rest: string, i: nat)
    requires |r| <= i < |r| + |rest| && InertAt(rest, i - |r|)
    ensures InertAt(r + rest, i)
  {
    assert (r + rest)[i..] == rest[i - |r|..];
  }

  lemma {:induction false} SubstitutedIsInert(s: string, i: nat)
    requires i < |Substituted(s)|
    ensures InertAt(Substituted(s), i)
  {
    var r, rest := Reference(s[0]), Substituted(s[1..]);
    assert Substituted(s) == r + rest;
    hide Reference, InertAt, Substituted;
    if i < |r| {
      ReferenceIsInert(s[0], rest, i);
    } else {
      SubstitutedIsInert(s[1..], i - |r|);
      InertAfter(r, rest, i);
    }
  }

  /** No markup character survives, and every ampersand in the output starts one of the five references. */
  lemma EscapedIsInert(s: string)
    ensures forall i :: 0 <= i < |EscapeHtml(s)| ==> InertAt(EscapeHtml(s), i)
  {
    hide EscapeHtml, InertAt, Substituted;
    PassesAreOneSubstitution(s);
    forall i | 0 <= i < |EscapeHtml(s)|
      ensures InertAt(EscapeHtml(s), i)
    {
      SubstitutedIsInert(s, i);
    }
  }

  // ---- Decoding ----

  predicate IsMarkup(c: char) {
    c == '<' || c == '>' || c == '"' || c == '\''
  }

  /** Replaces each of the five references by its character, left to right. */
  function Decoded(t: string): string {
    if t == "" then ""
    else if "&amp;" <= t then "&" + Decoded(t[5..])
    else if "&lt;" <= t then "<" + Decoded(t[4..])
    else if "&gt;" <= t then ">" + Decoded(t[4..])
    else if "&quot;" <= t then "\"" + Decoded(t[6..])
    else if "&#039;" <= t then "'" + Decoded(t[6..])
    else [t[0]] + Decoded(t[1..])
  }

  /** The five references, and what tells their texts apart. */
  lemma References(c: char)
    ensures c == '&' ==> Reference(c) == "&amp;"
    ensures c == '<' ==> Reference(c) == "&lt;"
    ensures c == '>' ==> Reference(c) == "&gt;"
    ensures c == '"' ==> Reference(c) == "&quot;"
    ensures c == '\'' ==> Reference(c) == "&#039;"
    ensures c != '&' && !IsMarkup(c) ==> Reference(c) == [c]
  {
  }

  lemma DecodedReference(t: string)
    ensures "&amp;" <= t ==> Decoded(t) == "&" + Decoded(t[5..])
    ensures "&lt;" <= t ==> Decoded(t) == "<" + Decoded(t[4..])
    ensures "&gt;" <= t ==> Decoded(t) == ">" + Decoded(t[4..])
    ensures "&quot;" <= t ==> Decoded(t) == "\"" + Decoded(t[6..])
    ensures "&#039;" <= t ==> Decoded(t) == "'" + Decoded(t[6..])
  {
    assert "&amp;" <= t ==> t[1] == "&amp;"[1] == 'a';
    assert "&lt;" <= t ==> t[1] == "&lt;"[1] == 'l';
    assert "&gt;" <= t ==> t[1] == "&gt;"[1] == 'g';
    assert "&quot;" <= t ==> t[1] == "&quot;"[1] == 'q';
    assert "&#039;" <= t ==> t[1] == "&#039;"[1] == '#';
  }

  lemma DecodedOther(t: string)
    requires t != "" && t[0] != '&'
    ensures Decoded(t) == [t[0]] + Decoded(t[1..])
  {
  }

  lemma DecodedStep(c: char, rest: string)
    ensures Decoded(Reference(c) + rest) == [c] + Decoded(rest)
  {
    References(c);
    hide Decoded, Reference;
    var r := Reference(c);
    var t := r + rest;
    assert r <= t && t[|r|..] == rest;
    if r == [c] {
      DecodedOther(t);
    } else {
      DecodedReference(t);
    }
  }

  lemma {:induction false} DecodedSubstituted(s: string)
    ensures Decoded(Substituted(s)) == s
  {
    if s != "" {
      DecodedStep(s[0], Substituted(s[1..]));
      DecodedSubstituted(s[1..]);
      assert s == [s[0]] + s[1..];
    }
  }

  /** Decoding the references gives the input back, so nothing is lost and no two inputs collide. */
  lemma EscapeRoundTrip(s: string)
    ensures Decoded(EscapeHtml(s)) == s
  {
    hide EscapeHtml, Decoded, Substituted;
    PassesAreOneSubstitution(s);
    DecodedSubstituted(s);
  }

  // ---- The order of the passes ----

  /** The same five passes with the ampersand's last. */
  function AmpersandLast(s: string): string {
    var s1 := ReplaceAll(s, '<', "&lt;");
    var s2 := ReplaceAll(s1, '>', "&gt;");
    var s3 := ReplaceAll(s2, '"', "&quot;");
    var s4 := ReplaceAll(s3, '\'', "&#039;");
    ReplaceAll(s4, '&', "&amp;")
  }

  /** What a reader decodes from it: the ampersand comes back, the other four stay references. */
  function ReadBack(c: char): string {
    if c == '&' then "&" else Reference(c)
  }

  function AllReadBack(s: string): string {
    if s == "" then "" else ReadBack(s[0]) + AllReadBack(s[1..])
  }

  /** An ampersand's reference, then the rest of the character's own. */
  function ReferencedTwice(c: char): string {
    if Reference(c) == [c] then [c] else "&amp;" + ReadBack(c)[1..]
  }

  lemma AmpersandOfReference(tail: string)
    requires '&' !in tail
    ensures ReplaceAll("&" + tail, '&', "&amp;") == "&amp;" + tail
  {
    ReplaceAllConcat("&", tail, '&', "&amp;");
    ReplaceAllOne('&', '&', "&amp;");
    ReplaceAllAbsent(tail, '&', "&amp;");
  }

  lemma LastOne(c: char)
    ensures AmpersandLast([c]) == ReferencedTwice(c)
  {
    hide ReplaceAll;
    ReplaceAllOne(c, '<', "&lt;");
    ReplaceAllOne(c, '>', "&gt;");
    ReplaceAllOne(c, '"', "&quot;");
    ReplaceAllOne(c, '\'', "&#039;");
    ReplaceAllOne(c, '&', "&amp;");
    if c == '<' {
      ReplaceAllAbsent("&lt;", '>', "&gt;");
      ReplaceAllAbsent("&lt;", '"', "&quot;");
      ReplaceAllAbsent("&lt;", '\'', "&#039;");
      AmpersandOfReference("lt;");
      assert "&" + "lt;" == "&lt;" && "&lt;"[1..] == "lt;";
    } else if c == '>' {
      ReplaceAllAbsent("&gt;", '"', "&quot;");
      ReplaceAllAbsent("&gt;", '\'', "&#039;");
      AmpersandOfReference("gt;");
      assert "&" + "gt;" == "&gt;" && "&gt;"[1..] == "gt;";
    } else if c == '"' {
      ReplaceAllAbsent("&quot;", '\'', "&#039;");
      AmpersandOfReference("quot;");
      assert "&" + "quot;" == "&quot;" && "&quot;"[1..] == "quot;";
    } else if c == '\'' {
      AmpersandOfReference("#039;");
      assert "&" + "#039;" == "&#039;" && "&#039;"[1..] == "#039;";
    }
  }

  lemma LastConcat(s: string, t: string)
    ensures AmpersandLast(s + t) == AmpersandLast(s) + AmpersandLast(t)
  {
    hide ReplaceAll;
    ReplaceAllConcat(s, t, '<', "&lt;");
    var s1, t1 := ReplaceAll(s, '<', "&lt;"), ReplaceAll(t, '<', "&lt;");
    ReplaceAllConcat(s1, t1, '>', "&gt;");
    var s2, t2 := ReplaceAll(s1, '>', "&gt;"), ReplaceAll(t1, '>', "&gt;");
    ReplaceAllConcat(s2, t2, '"', "&quot;");
    var s3, t3 := ReplaceAll(s2, '"', "&quot;"), ReplaceAll(t2, '"', "&quot;");
    ReplaceAllConcat(s3, t3, '\'', "&#039;");
    ReplaceAllConcat(ReplaceAll(s3, '\'', "&#039;"), ReplaceAll(t3, '\'', "&#039;"), '&', "&amp;");
  }

  lemma {:induction false} DecodedPlain(t: string, rest: string)
    requires '&' !in t
    ensures Decoded(t + rest) == t + Decoded(rest)
  {
    hide Decoded;
    if t == "" {
      assert t + rest == rest && "" + Decoded(rest) == Decoded(rest);
    } else {
      DecodedOther(t + rest);
      assert t[0] in t && (t + rest)[0] == t[0] && (t + rest)[1..] == t[1..] + rest;
      DecodedPlain(t[1..], rest);
      assert [t[0]] + (t[1..] + Decoded(rest)) == t + Decoded(rest);
    }
  }

  lemma TailOfReference(c: char)
    requires Reference(c) != [c]
    ensures '&' !in ReadBack(c)[1..] && ReadBack(c) == "&" + ReadBack(c)[1..]
  {
  }

  lemma AmpersandStep(tail: string, rest: string)
    requires '&' !in tail
    ensures Decoded("&amp;" + tail + rest) == "&" + tail + Decoded(rest)
  {
    References('&');
    hide Decoded, Reference;
    assert "&amp;" + tail + rest == "&amp;" + (tail + rest);
    DecodedStep('&', tail + rest);
    DecodedPlain(tail, rest);
    assert "&" + (tail + Decoded(rest)) == "&" + tail + Decoded(rest);
  }

  lemma ReadBackStep(c: char, rest: string)
    ensures Decoded(ReferencedTwice(c) + rest) == ReadBack(c) + Decoded(rest)
  {
    var tail := ReadBack(c)[1..];
    if Reference(c) == [c] {
      DecodedStep(c, rest);
    } else {
      TailOfReference(c);
      hide Decoded, Reference, ReadBack;
      AmpersandStep(tail, rest);
    }
  }

  lemma NothingEscaped()
    ensures AmpersandLast("") == "" && Decoded("") == ""
  {
  }

  lemma {:induction false} LastReadsBack(s: string)
    ensures Decoded(AmpersandLast(s)) == AllReadBack(s)
  {
    hide AmpersandLast, Decoded, ReferencedTwice, ReadBack;
    if s == "" {
      NothingEscaped();
    } else {
      assert s == [s[0]] + s[1..];
      LastConcat([s[0]], s[1..]);
      LastOne(s[0]);
      ReadBackStep(s[0], AmpersandLast(s[1..]));
      LastReadsBack(s[1..]);
    }
  }

  lemma {:induction false} ReadBackLength(s: string)
    ensures |AllReadBack(s)| >= |s|
    ensures AllReadBack(s) == s <==> forall i :: 0 <= i < |s| ==> !IsMarkup(s[i])
    ensures |AllReadBack(s)| == |s| <==> AllReadBack(s) == s
  {
    if s != "" {
      ReadBackLength(s[1..]);
      if forall i :: 0 <= i < |s| ==> !IsMarkup(s[i]) {
        assert AllReadBack(s) == s;
      } else if !IsMarkup(s[0]) {
        var i :| 0 <= i < |s| && IsMarkup(s[i]);
        assert IsMarkup(s[1..][i - 1]);
      }
    }
  }

  /** With the ampersand's pass last a string reads back as it was exactly when it holds none of the other four
      characters. */
  lemma AmpersandMustComeFirst(s: string)
    ensures Decoded(AmpersandLast(s)) == s <==> forall i :: 0 <= i < |s| ==> !IsMarkup(s[i])
  {
    hide AmpersandLast, Decoded;
    LastReadsBack(s);
    ReadBackLength(s);
  }
}
