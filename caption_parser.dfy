/** `parsePhotoCaption` of lib/google-photos.ts: from a photo's description,
    the caption to show, a location label and who the photo belongs to.
    The two regular expressions of the source are modelled by scanning
    functions whose contracts state the leftmost-match semantics of
    JavaScript's `String.prototype.match`. */
module CaptionParser {
  import opened Wrappers
  import opened JsBuiltins
  import opened Types

  /** The result of `parsePhotoCaption`; `ltype` is the source's `type`. */
  datatype ParsedCaption = ParsedCaption(caption: string, location: Option<string>, ltype: Option<LocationType>)

  // ------------------------------------------- the pattern /\[([^\]]+)\]/

  /** A match of the bracket pattern: the indices of its `[` and its `]`. */
  datatype Span = Span(open: nat, close: nat)

  /** `/\[([^\]]+)\]/` matches `s[i..j + 1]`: a `[`, one or more characters
      other than `]`, then a `]`. Because the group cannot hold a `]`, `j` is
      the first `]` after `i`. */
  ghost predicate BracketAt(s: string, i: int, j: int) {
    0 <= i && i + 1 < j < |s| && s[i] == '[' && s[j] == ']'
    && forall k :: i < k < j ==> s[k] != ']'
  }

  /** No match of the bracket pattern starts before `i`. */
  ghost predicate NoBracketBefore(s: string, i: int) {
    forall i', j' :: 0 <= i' < i ==> !BracketAt(s, i', j')
  }

  /** The first index at or after `k` that holds `]`, or `|s|`. */
  function CloseFrom(s: string, k: nat): (j: nat)
    requires k <= |s|
    ensures k <= j <= |s| && (j < |s| ==> s[j] == ']')
    ensures forall m :: k <= m < j ==> s[m] != ']'
    decreases |s| - k
  {
    if k == |s| || s[k] == ']' then k else CloseFrom(s, k + 1)
  }

  /** The leftmost match of the bracket pattern that starts at or after `p`,
      as the indices of its `[` and its `]`. */
  function BracketFrom(s: string, p: nat): (r: Option<Span>)
    requires p <= |s|
    ensures r.Some? ==> p <= r.value.open && BracketAt(s, r.value.open, r.value.close)
    ensures forall i, j :: p <= i && (r.None? || i < r.value.open) ==> !BracketAt(s, i, j)
    decreases |s| - p
  {
    if p == |s| then None
    else if s[p] == '[' && p + 1 < |s| then
      var j := CloseFrom(s, p + 1);
      if p + 1 < j < |s| then Some(Span(p, j)) else BracketFrom(s, p + 1)
    else BracketFrom(s, p + 1)
  }

  /** `description.match(/\[([^\]]+)\]/)`: the leftmost match. */
  function BracketMatch(s: string): (r: Option<Span>)
    ensures r.None? <==> forall i, j :: !BracketAt(s, i, j)
    ensures r.Some? ==> BracketAt(s, r.value.open, r.value.close) && NoBracketBefore(s, r.value.open)
  {
    var r := BracketFrom(s, 0);
    assert r.Some? ==> BracketAt(s, r.value.open, r.value.close);
    r
  }

  // ------------------------------------------------- the pattern /#(\w+)/

  /** `\w` without the `u` flag: `[A-Za-z0-9_]`. */
  predicate IsWordChar(c: char) {
    'A' <= c <= 'Z' || 'a' <= c <= 'z' || '0' <= c <= '9' || c == '_'
  }

  /** `/#(\w+)/` can match at `p`: a `#` followed by a word character. */
  ghost predicate HashtagAt(s: string, p: int) {
    0 <= p && p + 1 < |s| && s[p] == '#' && IsWordChar(s[p + 1])
  }

  /** End of the run of word characters that starts at `k`. */
  function WordEnd(s: string, k: nat): (e: nat)
    requires k <= |s|
    ensures k <= e <= |s| && (e < |s| ==> !IsWordChar(s[e]))
    ensures forall m :: k <= m < e ==> IsWordChar(s[m])
    decreases |s| - k
  {
    if k == |s| || !IsWordChar(s[k]) then k else WordEnd(s, k + 1)
  }

  /** The leftmost position at or after `p` where `/#(\w+)/` matches. */
  function HashtagFrom(s: string, p: nat): (r: Option<nat>)
    requires p <= |s|
    ensures r.Some? ==> p <= r.value && HashtagAt(s, r.value)
    ensures forall q :: p <= q && (r.None? || q < r.value) ==> !HashtagAt(s, q)
    decreases |s| - p
  {
    if p == |s| then None
    else if s[p] == '#' && p + 1 < |s| && IsWordChar(s[p + 1]) then Some(p)
    else HashtagFrom(s, p + 1)
  }

  /** `description.match(/#(\w+)/)[1]`: the greedy run of word characters
      after the first `#` that is followed by one. */
  function HashtagMatch(s: string): (r: Option<string>)
    ensures r.None? <==> forall p :: !HashtagAt(s, p)
    ensures r.Some? ==> exists p :: HashtagAt(s, p) && (forall q :: 0 <= q < p ==> !HashtagAt(s, q))
                          && p + 1 + |r.value| <= |s| && r.value == s[p + 1..p + 1 + |r.value|]
                          && (p + 1 + |r.value| < |s| ==> !IsWordChar(s[p + 1 + |r.value|]))
    ensures r.Some? ==> r.value != [] && forall k :: 0 <= k < |r.value| ==> IsWordChar(r.value[k])
  {
    match HashtagFrom(s, 0)
    case None => None
    case Some(p) =>
      var e := WordEnd(s, p + 1);
      var w := s[p + 1..e];
      assert HashtagAt(s, p) && p + 1 + |w| == e;
      Some(w)
  }

  // ---------------------------------------------------------- the parser

  /** The contributor tags, tested on the lower-cased description:
      `pranav` first, then `pooja`, else `together`. */
  function TagType(lower: string): (r: LocationType)
    ensures r == Pranav <==> Includes(lower, "#pranav") || Includes(lower, "@pranav")
    ensures r == Pooja <==>
      (!(Includes(lower, "#pranav") || Includes(lower, "@pranav"))
       && (Includes(lower, "#pooja") || Includes(lower, "@pooja")))
  {
    if Includes(lower, "#pranav") || Includes(lower, "@pranav") then Pranav
    else if Includes(lower, "#pooja") || Includes(lower, "@pooja") then Pooja
    else Together
  }

  /** The caption: the description with the bracket segment removed and
      trimmed when there is one, else the description as it is. */
  function CaptionPart(d: string): string {
    var m := BracketMatch(d);
    if m.None? then d else CaptionWithout(d, m.value.open, m.value.close)
  }

  /** `caption.replace(d[open..close + 1], '').trim()`. */
  function CaptionWithout(d: string, open: nat, close: nat): string
    requires open <= close < |d|
  {
    Trim(ReplaceFirst(d, d[open..close + 1], ""))
  }

  /** The location: the bracket text, else the first hashtag's word. */
  function LocationPart(d: string): (r: Option<string>)
    ensures r.Some? ==> r.value != ""
  {
    var m := BracketMatch(d);
    var location := if m.None? then None else Some(d[m.value.open + 1..m.value.close]);
    var hashtag := HashtagMatch(d);
    if hashtag.Some? && (location.None? || location.value == "") then hashtag else location
  }

  /** `parsePhotoCaption(description)`. An absent or empty description gives
      an empty caption and nothing else; otherwise the type is always set,
      and a location, when found, is never empty. */
  function ParsePhotoCaption(description: Option<string>): (r: ParsedCaption)
    ensures r.ltype.None? <==> description.None? || description.value == ""
    ensures r.ltype.None? ==> r.caption == "" && r.location.None?
    ensures r.location.Some? ==> r.location.value != ""
  {
    if description.None? || description.value == "" then ParsedCaption("", None, None)
    else
      var d := description.value;
      ParsedCaption(CaptionPart(d), LocationPart(d), Some(TagType(Lower(d))))
  }

  // ---------------------------------------------------------- properties

  /** The matched text `[...]` first occurs in the description exactly where
      the regular expression matched, so `caption.replace(match[0], '')`
      removes the very segment the location was read from. */
  lemma {:induction false} BracketReplaceIsLeftmost(d: string, i: int, j: int)
    requires BracketAt(d, i, j) && NoBracketBefore(d, i)
    ensures IndexOf(d, d[i..j + 1]) == i
  {
    var pat := d[i..j + 1];
    assert OccursAt(d, pat, i);
    forall q | 0 <= q < i ensures !OccursAt(d, pat, q) {
      if OccursAt(d, pat, q) {
        var e := q + (j - i);
        assert d[q..q + |pat|] == pat;
        assert d[q] == pat[0] == '[' && d[e] == pat[j - i] == ']';
        forall k | q < k < e ensures d[k] != ']' {
          assert d[k] == pat[k - q] == d[i + (k - q)];
        }
        assert BracketAt(d, q, e);
        assert false;
      }
    }
  }

  /** With a bracket match: the location is the (non-empty) text between
      the brackets of the leftmost match, and the caption is the
      description with that `[...]` segment removed, then trimmed. This
      holds whether or not the description also has a hashtag. */
  lemma {:induction false} BracketCase(d: string, i: nat, j: nat)
    requires BracketAt(d, i, j) && NoBracketBefore(d, i)
    ensures ParsePhotoCaption(Some(d)).location == Some(d[i + 1..j])
    ensures ParsePhotoCaption(Some(d)).caption == Trim(d[..i] + d[j + 1..])
    ensures d[i + 1..j] != "" && ']' !in d[i + 1..j]
  {
    BracketLocation(d, i, j);
    CaptionOfBracket(d, i, j);
    ParseParts(d);
  }

  /** The place of a description whose leftmost bracket pair is `i..j`. */
  lemma {:induction false} BracketLocation(d: string, i: nat, j: nat)
    requires BracketAt(d, i, j) && NoBracketBefore(d, i)
    ensures ParsePhotoCaption(Some(d)).location == Some(d[i + 1..j])
    ensures d[i + 1..j] != "" && ']' !in d[i + 1..j]
  {
    BracketMatchIs(d, i, j);
    LocationOfMatch(d, i, j);
    ParseLocation(d);
    BracketContent(d, i, j);
  }

  /** The group of a bracket match is non-empty and holds no `]`. */
  lemma {:induction false} BracketContent(d: string, i: nat, j: nat)
    requires BracketAt(d, i, j)
    ensures d[i + 1..j] != "" && ']' !in d[i + 1..j]
  {
    assert d[i + 1..j][0] == d[i + 1];
  }

  /** The place of a non-empty description is its location part. */
  lemma {:induction false} ParseLocation(d: string)
    requires d != ""
    ensures ParsePhotoCaption(Some(d)).location == LocationPart(d)
  {
  }

  /** A non-empty description is parsed part by part. */
  lemma {:induction false} ParseParts(d: string)
    requires d != ""
    ensures ParsePhotoCaption(Some(d)) == ParsedCaption(CaptionPart(d), LocationPart(d), Some(TagType(Lower(d))))
  {
  }

  lemma {:induction false} CaptionOfBracket(d: string, i: nat, j: nat)
    requires BracketAt(d, i, j) && NoBracketBefore(d, i)
    ensures CaptionPart(d) == Trim(d[..i] + d[j + 1..])
  {
    BracketMatchIs(d, i, j);
    CaptionOfMatch(d, i, j);
    RemoveSegment(d, i, j);
  }

  /** `replace(match[0], '')` cuts out exactly the matched segment. */
  lemma {:induction false} RemoveSegment(d: string, i: nat, j: nat)
    requires BracketAt(d, i, j) && NoBracketBefore(d, i)
    ensures ReplaceFirst(d, d[i..j + 1], "") == d[..i] + d[j + 1..]
  {
    var pat := d[i..j + 1];
    BracketReplaceIsLeftmost(d, i, j);
    ReplaceFirstAt(d, pat, "", i);
    assert d[..i] + "" + d[i + |pat|..] == d[..i] + d[j + 1..];
  }

  /** The caption part once the bracket pattern matched at `[i..j]`. */
  lemma {:induction false} CaptionOfMatch(d: string, i: nat, j: nat)
    requires BracketMatch(d) == Some(Span(i, j))
    ensures CaptionPart(d) == Trim(ReplaceFirst(d, d[i..j + 1], ""))
  {
    assert CaptionPart(d) == CaptionWithout(d, i, j);
  }

  /** The location part once the bracket pattern matched at `[i..j]`. */
  lemma {:induction false} LocationOfMatch(d: string, i: nat, j: nat)
    requires BracketMatch(d) == Some(Span(i, j))
    ensures LocationPart(d) == Some(d[i + 1..j])
  {
  }

  /** The leftmost match is unique. */
  lemma {:induction false} BracketMatchIs(d: string, i: nat, j: nat)
    requires BracketAt(d, i, j) && NoBracketBefore(d, i)
    ensures BracketMatch(d) == Some(Span(i, j))
  {
    var m := BracketMatch(d);
    assert m.Some?;
    assert m.value.open == i;
  }

  /** Without a bracket match: the caption is the description itself,
      untrimmed, and the location is the first hashtag's word, if any. */
  lemma {:induction false} NoBracketCase(d: string)
    requires d != "" && forall i, j :: !BracketAt(d, i, j)
    ensures ParsePhotoCaption(Some(d)).caption == d
    ensures ParsePhotoCaption(Some(d)).location == HashtagMatch(d)
  {
  }

  /** Trimming keeps every substring that starts and ends with a
      non-whitespace character, shifted by the number of leading blanks cut. */
  lemma {:induction false} TrimKeeps(t: string, p: int, pat: string)
    requires OccursAt(t, pat, p) && pat != []
    requires !IsWhitespace(pat[0]) && !IsWhitespace(pat[|pat| - 1])
    ensures OccursAt(Trim(t), pat, p - LeadingSpace(t))
  {
    var a := LeadingSpace(t);
    var r := Trim(t);
    assert t[p] == pat[0];
    assert t[p + |pat| - 1] == pat[|pat| - 1];
    assert a <= p;
    assert p + |pat| <= a + |r|;
    assert r == t[a..a + |r|];
    forall k | 0 <= k < |pat| ensures r[p - a + k] == pat[k] {
      assert t[p..p + |pat|][k] == t[p + k];
    }
    assert r[p - a..p - a + |pat|] == pat;
  }

  /** A hashtag is never removed by the parser: when it lies outside the
      bracket segment, the caption still contains it. */
  lemma {:induction false} HashtagStaysInCaption(d: string, i: nat, j: nat, p: nat, w: string)
    requires BracketAt(d, i, j) && NoBracketBefore(d, i)
    requires w != [] && forall k :: 0 <= k < |w| ==> IsWordChar(w[k])
    requires OccursAt(d, "#" + w, p) && (p + 1 + |w| <= i || j < p)
    ensures Includes(ParsePhotoCaption(Some(d)).caption, "#" + w)
  {
    var tag := "#" + w;
    var t := d[..i] + d[j + 1..];
    var p' := if p + 1 + |w| <= i then p else p - (j + 1 - i);
    assert t[p'..p' + |tag|] == d[p..p + |tag|];
    assert tag[|tag| - 1] == w[|w| - 1];
    TrimKeeps(t, p', tag);
    CaptionOfBracket(d, i, j);
    assert OccursAt(CaptionPart(d), tag, p' - LeadingSpace(t));
    ParseParts(d);
  }

  /** For a non-empty description the type is always set, decided in this
      order: a `#pranav` or `@pranav` tag, then a `#pooja` or `@pooja` tag,
      in any letter case, else `together`. */
  lemma {:induction false} ContributorTagOrder(d: string)
    requires d != ""
    ensures var t := ParsePhotoCaption(Some(d)).ltype;
      var pranav := (exists i :: OccursAt(Lower(d), "#pranav", i)) || (exists i :: OccursAt(Lower(d), "@pranav", i));
      var pooja := (exists i :: OccursAt(Lower(d), "#pooja", i)) || (exists i :: OccursAt(Lower(d), "@pooja", i));
      && t.Some?
      && (t.value == Pranav <==> pranav)
      && (t.value == Pooja <==> !pranav && pooja)
      && (t.value == Together <==> !pranav && !pooja)
  {
  }

  /** The type tags are case-insensitive: lower-casing the description does
      not change the type. */
  lemma {:induction false} TypeIgnoresCase(d: string)
    ensures ParsePhotoCaption(Some(d)).ltype == ParsePhotoCaption(Some(Lower(d))).ltype
  {
    LowerIdempotent(d);
    assert |Lower(d)| == |d|;
  }

  /** A description with both a bracket match and a hashtag takes its
      place from the leftmost bracket pair, wherever the hashtag stands. */
  lemma {:induction false} BracketBeatsHashtag(d: string, i: nat, j: nat)
    requires BracketAt(d, i, j) && NoBracketBefore(d, i) && HashtagMatch(d).Some?
    ensures ParsePhotoCaption(Some(d)).location == Some(d[i + 1..j])
  {
    BracketLocation(d, i, j);
  }

  /** The form `[name] #tag`: the bracketed name is the place. */
  lemma {:induction false} BracketThenHashtag(name: string, tag: string)
    requires name != "" && ']' !in name
    ensures ParsePhotoCaption(Some("[" + name + "] #" + tag)).location == Some(name)
  {
    var d := "[" + name + "] #" + tag;
    FrontBracket(name, tag);
    LocationIs(d, 0, |name| + 1, name);
  }

  /** The place read from the leftmost bracket pair, under a given name. */
  lemma {:induction false} LocationIs(d: string, i: nat, j: nat, name: string)
    requires BracketAt(d, i, j) && NoBracketBefore(d, i) && d[i + 1..j] == name
    ensures ParsePhotoCaption(Some(d)).location == Some(name)
  {
    BracketLocation(d, i, j);
  }

  /** The bracket at the front of `[name] #tag` is the leftmost match. */
  lemma {:induction false} FrontBracket(name: string, tag: string)
    requires name != "" && ']' !in name
    ensures var d := "[" + name + "] #" + tag;
      BracketAt(d, 0, |name| + 1) && NoBracketBefore(d, 0) && d[1..|name| + 1] == name
  {
    var d := "[" + name + "] #" + tag;
    forall k | 0 < k < |name| + 1 ensures d[k] != ']' {
      assert d[k] == name[k - 1];
    }
    assert d[1..|name| + 1] == name;
  }

  lemma {:induction false} ParisBracket(d: string)
    requires d == "Our trip! [Paris] #pranav"
    ensures BracketAt(d, 10, 16) && NoBracketBefore(d, 10)
    ensures d[11..16] == "Paris" && d[..10] + d[17..] == "Our trip!  #pranav"
  {
    assert BracketAt(d, 10, 16);
    forall k | 0 <= k < 5 ensures d[11..16][k] == "Paris"[k] {
    }
    var rest := d[..10] + d[17..];
    forall k | 0 <= k < 18 ensures rest[k] == "Our trip!  #pranav"[k] {
    }
    forall i', j' | 0 <= i' < 10 ensures !BracketAt(d, i', j') {
      assert d[i'] != '[';
    }
  }

  lemma {:induction false} ParisTrim(t: string)
    requires t == "Our trip!  #pranav"
    ensures Trim(t) == t
  {
    assert LeadingSpace(t) == 0;
  }

  /**
   * For `Our trip! [Paris] #pranav` the place is `Paris`,
   * and only the bracketed segment leaves the caption, so the hashtag stays.
   */
  lemma {:induction false} ParisExample(d: string)
    requires d == "Our trip! [Paris] #pranav"
    ensures ParsePhotoCaption(Some(d)).location == Some("Paris")
    ensures ParsePhotoCaption(Some(d)).caption == "Our trip!  #pranav"
  {
    ParisBracket(d);
    BracketCase(d, 10, 16);
    ParisTrim(d[..10] + d[17..]);
  }
}
