/**
 * The two normalisation chains applied to a captured TITLE and a captured
 * BODY before they are stored on the document.
 */
module Normalise {

  import opened JavaStrings

  /**
   * The TITLE chain: `replaceAll("\\s+", " ")`, then `trim()`, then
   * `replaceAll("&lt;", "<")`. A normalised title has no leading or trailing
   * blank, no run of two whitespace characters, no other whitespace than
   * ' ', no `&lt;` entity, and is no longer than the capture.
   */
  function NormTitle(s: string): (r: string)
    ensures Trimmed(r) && Collapsed(r)
    ensures !Contains(r, "&lt;")
    ensures |r| <= |s|
  {
    NormaliseWsTidy(s);
    NormaliseWsShrinks(s);
    DecodeLtTidy(NormaliseWs(s));
    ReplaceAll(NormaliseWs(s), "&lt;", "<")
  }

  /**
   * The BODY chain up to and including the entity decoding:
   * `replaceAll("&#127;", " ")`, then `replaceAll("\\s+", " ")`, then
   * `trim()`, then `replaceAll("&lt;", "<")`. Before the sign-offs are
   * deleted, a body is trimmed and collapsed, holds no `&lt;` entity, and is
   * no longer than the capture.
   */
  function BodyText(s: string): (r: string)
    ensures Trimmed(r) && Collapsed(r)
    ensures !Contains(r, "&lt;")
    ensures |r| <= |s|
  {
    var d := ReplaceAll(s, "&#127;", " ");
    ReplaceShrinks(s, "&#127;", " ");
    NormaliseWsTidy(d);
    NormaliseWsShrinks(d);
    DecodeLtTidy(NormaliseWs(d));
    ReplaceAll(NormaliseWs(d), "&lt;", "<")
  }

  /**
   * The whole BODY chain: `BodyText`, then the deletion of the
   * `Reuter &#3;` and `REUTER &#3;` sign-offs, in that order. Nothing is
   * trimmed or collapsed after the deletions, and the body is never longer
   * than the capture.
   */
  function NormBody(s: string): (r: string)
    ensures |r| <= |s|
  {
    var t := BodyText(s);
    ReplaceShrinks(t, "Reuter &#3;", "");
    ReplaceShrinks(ReplaceAll(t, "Reuter &#3;", ""), "REUTER &#3;", "");
    ReplaceAll(ReplaceAll(t, "Reuter &#3;", ""), "REUTER &#3;", "")
  }

  /**
   * Decoding `&lt;` keeps a trimmed, collapsed string trimmed and collapsed,
   * leaves no `&lt;` behind and never lengthens it.
   */
  lemma DecodeLtTidy(u: string)
    requires Trimmed(u) && Collapsed(u)
    ensures Trimmed(ReplaceAll(u, "&lt;", "<")) && Collapsed(ReplaceAll(u, "&lt;", "<"))
    ensures !Contains(ReplaceAll(u, "&lt;", "<"), "&lt;")
    ensures |ReplaceAll(u, "&lt;", "<")| <= |u|
  {
    var lt, rep := "&lt;", "<";
    assert forall k :: 0 <= k < |rep| ==> !IsTrimmable(rep[k]) && rep[k] !in lt;
    ReplaceKeepsTidy(u, lt, rep);
    ReplaceLeavesNone(u, lt, rep);
    ReplaceShrinks(u, lt, rep);
  }

  /** Collapsing then trimming never lengthens a string. */
  lemma NormaliseWsShrinks(s: string)
    ensures |NormaliseWs(s)| <= |s|
  {
  }

  /** Normalising a title that is already normalised changes nothing. */
  lemma TitleIdempotent(s: string)
    ensures NormTitle(NormTitle(s)) == NormTitle(s)
  {
    var u := NormTitle(s);
    TidyFixed(u);
    ReplaceAbsent(u, "&lt;", "<");
  }

  /** Without a sign-off, the body is exactly the tidy `BodyText`. */
  lemma BodyWithoutSignOff(s: string)
    requires !Contains(BodyText(s), "Reuter &#3;") && !Contains(BodyText(s), "REUTER &#3;")
    ensures NormBody(s) == BodyText(s)
    ensures Trimmed(NormBody(s)) && Collapsed(NormBody(s)) && !Contains(NormBody(s), "&lt;")
  {
    ReplaceAbsent(BodyText(s), "Reuter &#3;", "");
    ReplaceAbsent(BodyText(s), "REUTER &#3;", "");
  }

  /** `replaceAll` on the empty string returns the empty string. */
  lemma ReplaceEmpty(p: string, rep: string)
    requires p != []
    ensures ReplaceAll([], p, rep) == []
  {
    assert IndexOf([], p, 0).None?;
  }

  /**
   * On a capture that is already trimmed and collapsed and holds no
   * `&#127;`, the body chain before the sign-off deletions only decodes `&lt;`.
   */
  lemma BodyTextOfTidy(s: string)
    requires Trimmed(s) && Collapsed(s) && !Contains(s, "&#127;")
    ensures BodyText(s) == ReplaceAll(s, "&lt;", "<")
  {
    ReplaceAbsent(s, "&#127;", " ");
    TidyFixed(s);
  }

  /** The sign-off with the space that precedes it in the corpus. */
  const SignOff: string := " Reuter &#3;"

  lemma SignOffTidy()
    ensures Collapsed(SignOff) && !IsTrimmable(SignOff[|SignOff| - 1])
  {
    var t := SignOff;
    assert forall i :: 0 <= i < |t| ==> (IsSpace(t[i]) <==> i == 0 || i == 7);
  }

  /** The sign-off text holds neither `&#127;` nor `&lt;`. */
  lemma SignOffNoEntity()
    ensures !Contains(SignOff, "&#127;") && !Contains(SignOff, "&lt;")
  {
    MissingChar(SignOff, "&#127;", '1');
    MissingChar(SignOff, "&lt;", 'l');
  }

  /**
   * A body made of tidy text without '&' followed by the sign-off is
   * already trimmed, collapsed and free of the entities decoded before the
   * deletions.
   */
  lemma SignedTextTidy(u: string)
    requires u != [] && Trimmed(u) && Collapsed(u) && '&' !in u
    ensures BodyText(u + SignOff) == u + SignOff
  {
    var s := u + SignOff;
    SignOffTidy();
    SignOffNoEntity();
    CollapsedAppend(u, SignOff);
    AbsentAfterPrefix(u, SignOff, "&#127;");
    AbsentAfterPrefix(u, SignOff, "&lt;");
    BodyTextOfTidy(s);
    ReplaceAbsent(s, "&lt;", "<");
  }

  /**
   * In `u + SignOff + v`, the sign-off found first by `replaceAll` is the
   * one right after `u`, as the only '&' before it lies inside the sign-off.
   */
  lemma SignOffFirst(u: string, v: string)
    requires '&' !in u
    ensures ReplaceAll(u + " " + "Reuter &#3;" + v, "Reuter &#3;", "") ==
      u + " " + "" + ReplaceAll(v, "Reuter &#3;", "")
  {
    ReplaceFirstAnchor(u + " ", "Reuter &#3;", v, "", 7);
  }

  /** Deleting `Reuter &#3;` from tidy text without '&' and the sign-off leaves the space before it. */
  lemma SignOffDeleted(u: string)
    requires '&' !in u
    ensures ReplaceAll(u + SignOff, "Reuter &#3;", "") == u + " "
  {
    var e: string := [];
    SignOffFirst(u, e);
    ReplaceEmpty("Reuter &#3;", "");
    assert u + SignOff == u + " " + "Reuter &#3;" + e;
    assert u + " " + "" + e == u + " ";
  }

  /** Text without '&' holds no upper-case sign-off. */
  lemma NoUpperSignOff(a: string)
    requires '&' !in a
    ensures ReplaceAll(a, "REUTER &#3;", "") == a
  {
    MissingChar(a, "REUTER &#3;", '&');
    ReplaceAbsent(a, "REUTER &#3;", "");
  }

  /**
   * The sign-off is deleted after the trim, so the space before it stays:
   * tidy text `u` followed by ` Reuter &#3;` becomes `u` and a trailing
   * space (for instance `A<B Reuter &#3;` becomes `A<B `).
   */
  lemma BodyKeepsTrailingSpace(u: string)
    requires u != [] && Trimmed(u) && Collapsed(u) && '&' !in u
    ensures NormBody(u + SignOff) == u + " "
  {
    SignedTextTidy(u);
    SignOffDeleted(u);
    assert '&' !in u + " ";
    NoUpperSignOff(u + " ");
  }

  /** Text of one upper-case letter. */
  predicate Letter(x: string) {
    |x| == 1 && 'A' <= x[0] <= 'Z'
  }

  /** `x &lt;y` followed by the sign-off is already trimmed, collapsed and free of `&#127;`. */
  lemma LtExampleTidy(x: string, y: string)
    requires Letter(x) && Letter(y)
    ensures var s := x + "&lt;" + y + SignOff;
      Trimmed(s) && Collapsed(s) && !Contains(s, "&#127;")
  {
    var s := x + "&lt;" + y + SignOff;
    assert forall i :: 0 <= i < |s| ==> (IsSpace(s[i]) ==> i == 6 || i == 13) && s[i] != '1';
    MissingChar(s, "&#127;", '1');
  }

  /** A single `&lt;` is decoded when no '&' comes before it and no 'l' after it. */
  lemma DecodeOneLt(x: string, rest: string)
    requires '&' !in x && 'l' !in rest
    ensures ReplaceAll(x + "&lt;" + rest, "&lt;", "<") == x + "<" + rest
  {
    ReplaceFirstChar(x, "&lt;", rest, "<");
    MissingChar(rest, "&lt;", 'l');
    ReplaceAbsent(rest, "&lt;", "<");
  }

  /** Decoding `&lt;` in `x &lt;y` followed by the sign-off. */
  lemma LtExampleDecoded(x: string, y: string)
    requires Letter(x) && Letter(y)
    ensures ReplaceAll(x + "&lt;" + y + SignOff, "&lt;", "<") == x + "<" + y + SignOff
  {
    var rest := y + SignOff;
    assert x + "&lt;" + y + SignOff == x + "&lt;" + rest;
    assert 'l' !in rest by {
      assert forall i :: 0 <= i < |rest| ==> rest[i] != 'l';
    }
    DecodeOneLt(x, rest);
  }

  /**
   * The body chain on a capture such as `A&lt;B Reuter &#3;`: the entity is
   * decoded, the sign-off is deleted after the trim, and the space before it
   * stays, giving `A<B `.
   */
  lemma BodyLtExample(x: string, y: string)
    requires Letter(x) && Letter(y)
    ensures NormBody(x + "&lt;" + y + SignOff) == x + "<" + y + " "
  {
    var s := x + "&lt;" + y + SignOff;
    var u := x + "<" + y;
    assert '&' !in u by {
      assert forall i :: 0 <= i < |u| ==> u[i] != '&';
    }
    assert BodyText(s) == u + SignOff by {
      LtExampleTidy(x, y);
      BodyTextOfTidy(s);
      LtExampleDecoded(x, y);
    }
    assert ReplaceAll(BodyText(s), "Reuter &#3;", "") == u + " " by {
      SignOffDeleted(u);
    }
    assert '&' !in u + " ";
    NoUpperSignOff(u + " ");
  }
}
