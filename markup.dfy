/** The Slack link-markup rewrite of fetch_alerts.py: `re.sub(r"<[^|>]+\|([^>]+)>", r"\1", msg)`.
    A link `<target|caption>` becomes `caption`; matches are found left to right and do not overlap. */
module Markup {
  import opened Wrappers

  /** A match of the pattern: the caption it keeps and the length of the markup it replaces. */
  datatype Link = Link(caption: string, length: nat)

  /** A link target: one or more characters, none of them `|` or `>`. */
  predicate IsTarget(t: string) {
    |t| > 0 && forall i :: 0 <= i < |t| ==> t[i] != '|' && t[i] != '>'
  }

  /** A link caption: one or more characters, none of them `>`. */
  predicate IsCaption(l: string) {
    |l| > 0 && forall i :: 0 <= i < |l| ==> l[i] != '>'
  }

  /** The first position at or after `i` holding `|` or `>`, or `|s|`: where the greedy `[^|>]+` stops. */
  function TargetEnd(s: string, i: nat): (k: nat)
    requires i <= |s|
    ensures i <= k <= |s|
    decreases |s| - i
  {
    if i == |s| || s[i] == '|' || s[i] == '>' then i else TargetEnd(s, i + 1)
  }

  /** The first position at or after `i` holding `>`, or `|s|`: where the greedy `[^>]+` stops. */
  function CaptionEnd(s: string, i: nat): (m: nat)
    requires i <= |s|
    ensures i <= m <= |s|
    decreases |s| - i
  {
    if i == |s| || s[i] == '>' then i else CaptionEnd(s, i + 1)
  }

  /** `TargetEnd` stops at the first `|` or `>`. */
  lemma {:induction false} TargetEndStops(s: string, i: nat)
    requires i <= |s|
    ensures forall j :: i <= j < TargetEnd(s, i) ==> s[j] != '|' && s[j] != '>'
    ensures TargetEnd(s, i) < |s| ==> s[TargetEnd(s, i)] == '|' || s[TargetEnd(s, i)] == '>'
    decreases |s| - i
  {
    if !(i == |s| || s[i] == '|' || s[i] == '>') {
      TargetEndStops(s, i + 1);
    }
  }

  /** `CaptionEnd` stops at the first `>`. */
  lemma {:induction false} CaptionEndStops(s: string, i: nat)
    requires i <= |s|
    ensures forall j :: i <= j < CaptionEnd(s, i) ==> s[j] != '>'
    ensures CaptionEnd(s, i) < |s| ==> s[CaptionEnd(s, i)] == '>'
    decreases |s| - i
  {
    if !(i == |s| || s[i] == '>') {
      CaptionEndStops(s, i + 1);
    }
  }

  /** The match of the pattern at the start of `s`, if any: the caption and the length of the matched
      markup, which is longer than the caption by at least four characters. */
  function LinkAt(s: string): (r: Option<Link>)
    ensures r.Some? ==> |r.value.caption| + 4 <= r.value.length <= |s|
  {
    if |s| == 0 || s[0] != '<' then None
    else
      var k := TargetEnd(s, 1);
      if k == 1 || k == |s| || s[k] != '|' then None
      else
        var m := CaptionEnd(s, k + 1);
        if m == k + 1 || m == |s| then None
        else Some(Link(s[k + 1..m], m + 1))
  }

  /** When the pattern matches at the start of `s`, `s` starts with `<target|caption>` for a well-formed
      target and caption. */
  lemma LinkAtSound(s: string)
    requires LinkAt(s).Some?
    ensures var r := LinkAt(s).value;
      && IsCaption(r.caption)
      && IsTarget(s[1..r.length - |r.caption| - 2])
      && s[..r.length] == "<" + s[1..r.length - |r.caption| - 2] + "|" + r.caption + ">"
  {
    var k := TargetEnd(s, 1);
    var m := CaptionEnd(s, k + 1);
    TargetEndStops(s, 1);
    CaptionEndStops(s, k + 1);
    var caption := s[k + 1..m];
    assert LinkAt(s).value == Link(caption, m + 1);
    assert forall j :: 0 <= j < |caption| ==> caption[j] == s[k + 1 + j];
    assert IsCaption(caption);
    assert s[1..m + 1 - |caption| - 2] == s[1..k];
    assert forall j :: 0 <= j < k - 1 ==> s[1..k][j] == s[1 + j];
    assert IsTarget(s[1..k]);
    assert s[..m + 1] == "<" + s[1..k] + "|" + caption + ">";
  }

  /** Conversely, markup `<target|caption>` at the start of a string is always found, with exactly that caption. */
  lemma LinkAtFinds(target: string, caption: string, rest: string)
    requires IsTarget(target) && IsCaption(caption)
    ensures LinkAt("<" + target + "|" + caption + ">" + rest) == Some(Link(caption, |target| + |caption| + 3))
  {
    var s := "<" + target + "|" + caption + ">" + rest;
    var k := 1 + |target|;
    TargetEndAt(s, 1, k);
    CaptionEndAt(s, k + 1, k + 1 + |caption|);
    assert s[k + 1..k + 1 + |caption|] == caption;
  }

  lemma {:induction false} TargetEndAt(s: string, i: nat, k: nat)
    requires i <= k < |s| && s[k] == '|'
    requires forall j :: i <= j < k ==> s[j] != '|' && s[j] != '>'
    ensures TargetEnd(s, i) == k
    decreases k - i
  {
    if i < k {
      TargetEndAt(s, i + 1, k);
    }
  }

  lemma {:induction false} CaptionEndAt(s: string, i: nat, m: nat)
    requires i <= m < |s| && s[m] == '>'
    requires forall j :: i <= j < m ==> s[j] != '>'
    ensures CaptionEnd(s, i) == m
    decreases m - i
  {
    if i < m {
      CaptionEndAt(s, i + 1, m);
    }
  }

  /** `re.sub` of the link pattern: scan left to right; where a link starts, emit its caption and resume after it;
      elsewhere copy one character and move on. The result is never longer than the message. */
  function StripLinks(s: string): (r: string)
    ensures |r| <= |s|
    decreases |s|
  {
    if s == [] then []
    else
      match LinkAt(s)
      case Some(link) => link.caption + StripLinks(s[link.length..])
      case None => [s[0]] + StripLinks(s[1..])
  }

  /** A character that does not start a link is copied. */
  lemma StripLinksCopies(s: string)
    requires s != [] && LinkAt(s).None?
    ensures StripLinks(s) == [s[0]] + StripLinks(s[1..])
  {
  }

  /** A link at the front is replaced by its caption, and stripping continues after it. */
  lemma StripLinksOfLink(target: string, caption: string, rest: string)
    requires IsTarget(target) && IsCaption(caption)
    ensures StripLinks("<" + target + "|" + caption + ">" + rest) == caption + StripLinks(rest)
  {
    var s := "<" + target + "|" + caption + ">" + rest;
    LinkAtFinds(target, caption, rest);
    assert s[|target| + |caption| + 3..] == rest;
  }

  /** Text without `<` passes through unchanged, and stripping goes on after it. */
  lemma {:induction false} StripLinksOfPlain(plain: string, rest: string)
    requires '<' !in plain
    ensures StripLinks(plain + rest) == plain + StripLinks(rest)
    decreases |plain|
  {
    if plain == [] {
      assert plain + rest == rest;
    } else {
      var s := plain + rest;
      assert s[0] == plain[0];
      assert s[1..] == plain[1..] + rest;
      assert plain[0] in plain;
      StripLinksCopies(s);
      StripLinksOfPlain(plain[1..], rest);
      calc {
        StripLinks(s);
        [plain[0]] + StripLinks(plain[1..] + rest);
        [plain[0]] + (plain[1..] + StripLinks(rest));
        ([plain[0]] + plain[1..]) + StripLinks(rest);
        { assert [plain[0]] + plain[1..] == plain; }
        plain + StripLinks(rest);
      }
    }
  }

  /** A message containing no `<` is returned unchanged. */
  lemma StripLinksNoMarkup(s: string)
    requires '<' !in s
    ensures StripLinks(s) == s
  {
    StripLinksOfPlain(s, []);
    assert s + [] == s;
  }

  /** A message in which the pattern matches nowhere is returned unchanged. */
  lemma {:induction false} StripLinksNoMatch(s: string)
    requires forall i :: 0 <= i < |s| ==> LinkAt(s[i..]).None?
    ensures StripLinks(s) == s
    decreases |s|
  {
    if s != [] {
      assert LinkAt(s[0..]).None?;
      assert s[0..] == s;
      forall i | 0 <= i < |s[1..]|
        ensures LinkAt(s[1..][i..]).None?
      {
        assert s[1..][i..] == s[i + 1..];
      }
      StripLinksNoMatch(s[1..]);
    }
  }

  /** A link in the middle of plain text is reduced to its caption, as in
      `listed on <https://x.io|Binance> - ...` becoming `listed on Binance - ...`. */
  lemma StripLinksInText(before: string, target: string, caption: string, after: string)
    requires '<' !in before && '<' !in after
    requires IsTarget(target) && IsCaption(caption)
    ensures StripLinks(before + "<" + target + "|" + caption + ">" + after) == before + caption + after
  {
    var link := "<" + target + "|" + caption + ">" + after;
    assert before + "<" + target + "|" + caption + ">" + after == before + link;
    StripLinksOfPlain(before, link);
    StripLinksOfLink(target, caption, after);
    StripLinksNoMarkup(after);
  }
}
