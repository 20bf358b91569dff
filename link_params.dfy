/**
 * The markdown renderer's link helpers: splitting a link on `?`, keeping the
 * part before the first `?`, and scanning the segment after it for
 * `key=value` pairs with the global pattern `(\w+)=(\w*)\&*`, where `\w` is
 * `[A-Za-z0-9_]`. There is no percent-decoding and no `#` fragment handling.
 */
module LinkParams {
  import opened Wrappers

  const Separator: char := '?'

  /** `s.split(sep)`: the pieces between separators, in order, each one free of `sep`. */
  function Split(s: string, sep: char): (parts: seq<string>)
    ensures |parts| >= 1
    ensures |parts| == 1 <==> sep !in s
    ensures forall i :: 0 <= i < |parts| ==> sep !in parts[i]
    ensures parts[0] <= s
    ensures |parts[0]| < |s| ==> s[|parts[0]|] == sep
  {
    if s == [] then [""]
    else
      var rest := Split(s[1..], sep);
      if s[0] == sep then [""] + rest
      else [[s[0]] + rest[0]] + rest[1..]
  }

  /** `parts.join(sep)`, the inverse of Split. */
  function Join(parts: seq<string>, sep: char): string
    requires |parts| >= 1
  {
    if |parts| == 1 then parts[0] else parts[0] + [sep] + Join(parts[1..], sep)
  }

  /** Joining after an empty first piece starts with the separator. */
  lemma JoinEmptyHead(rest: seq<string>, sep: char)
    requires |rest| >= 1
    ensures Join([""] + rest, sep) == [sep] + Join(rest, sep)
  {
    assert ([""] + rest)[1..] == rest;
  }

  /** Joining after extending the first piece by one character extends the result by it. */
  lemma JoinConsHead(c: char, rest: seq<string>, sep: char)
    requires |rest| >= 1
    ensures Join([[c] + rest[0]] + rest[1..], sep) == [c] + Join(rest, sep)
  {
    var parts := [[c] + rest[0]] + rest[1..];
    if |rest| > 1 {
      assert parts[1..] == rest[1..];
      assert Join(parts, sep) == ([c] + rest[0]) + [sep] + Join(rest[1..], sep);
    }
  }

  /** Joining the pieces back with the separator restores the string. */
  lemma {:induction false} JoinSplit(s: string, sep: char)
    ensures Join(Split(s, sep), sep) == s
  {
    if s != [] {
      var rest := Split(s[1..], sep);
      JoinSplit(s[1..], sep);
      assert s == [s[0]] + s[1..];
      if s[0] == sep {
        JoinEmptyHead(rest, sep);
      } else {
        JoinConsHead(s[0], rest, sep);
      }
    }
  }

  /** The pieces after the first one are the pieces of the text after the first separator. */
  lemma {:induction false} SplitTail(s: string, sep: char)
    requires sep in s
    ensures |Split(s, sep)[0]| < |s|
    ensures Split(s, sep)[1..] == Split(s[|Split(s, sep)[0]| + 1..], sep)
  {
    if s[0] != sep {
      SplitTail(s[1..], sep);
      assert s[1..][|Split(s[1..], sep)[0]| + 1..] == s[|Split(s, sep)[0]| + 1..];
    }
  }

  /** `link.split('?')[0]`: everything before the first `?`, or the whole link. */
  function ParseLink(link: string): (r: string)
    ensures Separator !in r
    ensures r <= link
    ensures |r| < |link| ==> link[|r|] == Separator
    ensures Separator !in link ==> r == link
  {
    Split(link, Separator)[0]
  }

  /**
   * The segment the scanner reads, `link.split('?')[1]`, is the text after the
   * first `?` up to the next `?` or the end: the `ParseLink` of that rest.
   */
  lemma {:induction false} QuerySegment(link: string)
    requires Separator in link
    ensures |ParseLink(link)| < |link|
    ensures Split(link, Separator)[1] == ParseLink(link[|ParseLink(link)| + 1..])
  {
    SplitTail(link, Separator);
  }

  /** The characters `\w` matches: `[A-Za-z0-9_]`. */
  predicate IsWordChar(c: char) {
    ('A' <= c <= 'Z') || ('a' <= c <= 'z') || ('0' <= c <= '9') || c == '_'
  }

  /** The end of the maximal run of word characters starting at `i`. */
  function WordEnd(s: string, i: nat): (j: nat)
    requires i <= |s|
    decreases |s| - i
    ensures i <= j <= |s|
    ensures forall k :: i <= k < j ==> IsWordChar(s[k])
    ensures j < |s| ==> !IsWordChar(s[j])
  {
    if i < |s| && IsWordChar(s[i]) then WordEnd(s, i + 1) else i
  }

  /** The end of the run of `&` starting at `i`. */
  function AmpEnd(s: string, i: nat): (j: nat)
    requires i <= |s|
    decreases |s| - i
    ensures i <= j <= |s|
    ensures forall k :: i <= k < j ==> s[k] == '&'
    ensures j < |s| ==> s[j] != '&'
  {
    if i < |s| && s[i] == '&' then AmpEnd(s, i + 1) else i
  }

  /** One match of the pattern: the two groups and the index just after the match. */
  datatype Match = Match(key: string, value: string, end: nat)

  /** Some `\w+` run starting at `i` is immediately followed by `=`. */
  ghost predicate KeyAt(s: string, i: nat, j: nat)
    requires i <= |s|
  {
    i < j < |s| && s[j] == '=' && forall k :: i <= k < j ==> IsWordChar(s[k])
  }

  /** A `\w+` run followed by `=` can only end where the maximal word run ends. */
  lemma {:induction false} KeyEndsAtWordEnd(s: string, i: nat, j: nat)
    requires i <= |s|
    requires KeyAt(s, i, j)
    ensures j == WordEnd(s, i)
    decreases j - i
  {
  }

  /**
   * The pattern tried at index `i`. The greedy `\w+` can only be followed by
   * `=` at the end of the maximal word run, so the match exists exactly when
   * some word run starting at `i` is followed by `=`; the value is the greedy
   * `\w*` after it and the trailing `&` run is consumed.
   */
  function MatchAt(s: string, i: nat): (m: Option<Match>)
    requires i <= |s|
    ensures m.Some? <==> exists j :: KeyAt(s, i, j)
    ensures m.Some? ==>
      && i + |m.value.key| + 1 + |m.value.value| <= m.value.end <= |s|
      && s[i..i + |m.value.key|] == m.value.key
      && s[i + |m.value.key|] == '='
      && s[i + |m.value.key| + 1..i + |m.value.key| + 1 + |m.value.value|] == m.value.value
      && |m.value.key| > 0
      && (forall c :: c in m.value.key ==> IsWordChar(c))
      && (forall c :: c in m.value.value ==> IsWordChar(c))
    ensures m.Some? ==>
      var v := i + |m.value.key| + 1 + |m.value.value|;
      (v == |s| || !IsWordChar(s[v])) && m.value.end == AmpEnd(s, v)
  {
    var j := WordEnd(s, i);
    if i < j < |s| && s[j] == '=' then
      var k := WordEnd(s, j + 1);
      assert KeyAt(s, i, j);
      Some(Match(s[i..j], s[j + 1..k], AmpEnd(s, k)))
    else
      assert forall j': nat :: KeyAt(s, i, j') ==> j' == j by {
        forall j': nat | KeyAt(s, i, j') ensures j' == j {
          KeyEndsAtWordEnd(s, i, j');
        }
      }
      None
  }

  /** The pairs the global pattern yields from index `i` on, in order. */
  function MatchesFrom(s: string, i: nat): (pairs: seq<(string, string)>)
    requires i <= |s|
    decreases |s| - i
    ensures forall p :: p in pairs ==> |p.0| > 0
    ensures forall p :: p in pairs ==> (forall c :: c in p.0 ==> IsWordChar(c)) && (forall c :: c in p.1 ==> IsWordChar(c))
  {
    if i == |s| then []
    else
      match MatchAt(s, i)
      case Some(m) => [(m.key, m.value)] + MatchesFrom(s, m.end)
      case None => MatchesFrom(s, i + 1)
  }

  /** Every key is a non-empty word and every value a word: the shape of the pairs the pattern yields. */
  ghost predicate WordPairs(pairs: seq<(string, string)>) {
    forall n :: 0 <= n < |pairs| ==>
      |pairs[n].0| > 0 && (forall c :: c in pairs[n].0 ==> IsWordChar(c)) && (forall c :: c in pairs[n].1 ==> IsWordChar(c))
  }

  /** A query segment written from pairs: `key=value`, joined with `&`. */
  function Render(pairs: seq<(string, string)>): string
    decreases |pairs|
  {
    if pairs == [] then ""
    else pairs[0].0 + ("=" + (pairs[0].1 + (if |pairs| == 1 then "" else "&" + Render(pairs[1..]))))
  }

  /** A word run that stops at a non-word character or the end is the maximal one. */
  lemma WordEndAt(s: string, i: nat, j: nat)
    requires i <= j <= |s|
    requires forall t :: i <= t < j ==> IsWordChar(s[t])
    requires j == |s| || !IsWordChar(s[j])
    ensures WordEnd(s, i) == j
  {
  }

  /** Every character of `s[i..j]` is a word character when the slice is a word. */
  lemma WordSlice(s: string, i: nat, j: nat, w: string)
    requires i <= j <= |s| && s[i..j] == w
    requires forall c :: c in w ==> IsWordChar(c)
    ensures forall t :: i <= t < j ==> IsWordChar(s[t])
  {
    forall t | i <= t < j ensures IsWordChar(s[t]) {
      assert s[t] == w[t - i];
    }
  }

  /** A word key, `=` and a word value written at `i` are one match of the pattern, with those groups. */
  lemma MatchOfPair(s: string, i: nat, key: string, value: string)
    requires i + |key| + 1 + |value| <= |s|
    requires |key| > 0 && (forall c :: c in key ==> IsWordChar(c)) && (forall c :: c in value ==> IsWordChar(c))
    requires s[i..i + |key|] == key && s[i + |key|] == '=' && s[i + |key| + 1..i + |key| + 1 + |value|] == value
    requires i + |key| + 1 + |value| == |s| || !IsWordChar(s[i + |key| + 1 + |value|])
    ensures MatchAt(s, i).Some? && MatchAt(s, i).value.key == key && MatchAt(s, i).value.value == value
  {
    var j := i + |key|;
    var e := j + 1 + |value|;
    WordSlice(s, i, j, key);
    WordSlice(s, j + 1, e, value);
    WordEndAt(s, i, j);
    WordEndAt(s, j + 1, e);
  }

  /** The pieces of `key=value` followed by a tail, read back by position. */
  lemma PairPieces(w: string, key: string, value: string, tail: string)
    requires w == key + ("=" + (value + tail))
    ensures w[..|key|] == key && w[|key|] == '='
    ensures w[|key| + 1..|key| + 1 + |value|] == value
    ensures w[|key| + 1 + |value|..] == tail
  {
    assert w[|key|..] == "=" + (value + tail);
    assert w[|key| + 1..] == value + tail;
  }

  /** `key=value` and a tail written from index `i` on, read back by position in `s`. */
  lemma PairAt(s: string, i: nat, key: string, value: string, tail: string)
    requires i <= |s| && s[i..] == key + ("=" + (value + tail))
    ensures i + |key| + 1 + |value| <= |s|
    ensures s[i..i + |key|] == key && s[i + |key|] == '='
    ensures s[i + |key| + 1..i + |key| + 1 + |value|] == value
    ensures s[i + |key| + 1 + |value|..] == tail
  {
    var w := s[i..];
    PairPieces(w, key, value, tail);
    var b := |key| + 1 + |value|;
    assert s[i..i + |key|] == w[..|key|];
    assert s[i + |key| + 1..i + b] == w[|key| + 1..b];
    assert s[i + b..] == w[b..];
  }

  /** A tail `&` followed by the rest, read back by position in `s`. */
  lemma TailAt(s: string, e: nat, rest: string)
    requires e <= |s| && s[e..] == "&" + rest
    ensures e < |s| && s[e] == '&' && s[e + 1..] == rest
  {
    assert s[e] == s[e..][0];
    assert s[e + 1..] == s[e..][1..];
  }

  /** A run of `&` that stops at another character or the end is the maximal one. */
  lemma AmpEndAt(s: string, i: nat, j: nat)
    requires i <= j <= |s|
    requires forall t :: i <= t < j ==> s[t] == '&'
    requires j == |s| || s[j] != '&'
    ensures AmpEnd(s, i) == j
  {
  }

  /** A pair written at `i` and followed by a run of `&` ending at `end` is one whole match. */
  lemma PairMatch(s: string, i: nat, key: string, value: string, end: nat)
    requires i + |key| + 1 + |value| <= end <= |s|
    requires |key| > 0 && (forall c :: c in key ==> IsWordChar(c)) && (forall c :: c in value ==> IsWordChar(c))
    requires s[i..i + |key|] == key && s[i + |key|] == '=' && s[i + |key| + 1..i + |key| + 1 + |value|] == value
    requires forall t :: i + |key| + 1 + |value| <= t < end ==> s[t] == '&'
    requires end == |s| || s[end] != '&'
    requires i + |key| + 1 + |value| == |s| || !IsWordChar(s[i + |key| + 1 + |value|])
    ensures MatchAt(s, i) == Some(Match(key, value, end))
  {
    MatchOfPair(s, i, key, value);
    AmpEndAt(s, i + |key| + 1 + |value|, end);
  }

  /** A non-empty rendered segment starts with a word character. */
  lemma RenderStart(s: string, i: nat, pairs: seq<(string, string)>)
    requires i <= |s| && s[i..] == Render(pairs) && WordPairs(pairs) && pairs != []
    ensures i < |s| && IsWordChar(s[i])
  {
    var key, value := pairs[0].0, pairs[0].1;
    assert |key| > 0 && forall c :: c in key ==> IsWordChar(c);
    PairAt(s, i, key, value, if |pairs| == 1 then "" else "&" + Render(pairs[1..]));
    assert s[i] == s[i..i + |key|][0] == key[0];
    assert key[0] in key;
  }

  /** A last pair `key=value` written at `i` is one match that ends the text. */
  lemma LastPairMatch(s: string, i: nat, key: string, value: string)
    requires i <= |s| && s[i..] == key + ("=" + (value + ""))
    requires |key| > 0 && (forall c :: c in key ==> IsWordChar(c)) && (forall c :: c in value ==> IsWordChar(c))
    ensures i + |key| + 1 + |value| == |s|
    ensures MatchAt(s, i) == Some(Match(key, value, |s|))
  {
    PairAt(s, i, key, value, "");
    PairMatch(s, i, key, value, |s|);
  }

  /** After a pair `key=value&` come the rest's pairs, and they start with a word character. */
  lemma InnerPairLayout(s: string, i: nat, key: string, value: string, rest: seq<(string, string)>)
    requires i <= |s| && s[i..] == key + ("=" + (value + ("&" + Render(rest))))
    requires WordPairs(rest) && rest != []
    ensures i + |key| + 2 + |value| < |s|
    ensures s[i..i + |key|] == key && s[i + |key|] == '='
    ensures s[i + |key| + 1..i + |key| + 1 + |value|] == value
    ensures s[i + |key| + 1 + |value|] == '&' && IsWordChar(s[i + |key| + 2 + |value|])
    ensures s[i + |key| + 2 + |value|..] == Render(rest)
  {
    var e := i + |key| + 1 + |value|;
    PairAt(s, i, key, value, "&" + Render(rest));
    TailAt(s, e, Render(rest));
    RenderStart(s, e + 1, rest);
  }

  /** A pair `key=value&` followed by more rendered pairs is one match that ends after the `&`. */
  lemma InnerPairMatch(s: string, i: nat, key: string, value: string, rest: seq<(string, string)>)
    requires i <= |s| && s[i..] == key + ("=" + (value + ("&" + Render(rest))))
    requires |key| > 0 && (forall c :: c in key ==> IsWordChar(c)) && (forall c :: c in value ==> IsWordChar(c))
    requires WordPairs(rest) && rest != []
    ensures i + |key| + 2 + |value| <= |s|
    ensures s[i + |key| + 2 + |value|..] == Render(rest)
    ensures MatchAt(s, i) == Some(Match(key, value, i + |key| + 2 + |value|))
  {
    InnerPairLayout(s, i, key, value, rest);
    PairMatch(s, i, key, value, i + |key| + 2 + |value|);
  }

  /** The first pair of word pairs is a word key and a word value, and the rest are word pairs. */
  lemma WordPairsSplit(pairs: seq<(string, string)>)
    requires WordPairs(pairs) && pairs != []
    ensures |pairs[0].0| > 0 && (forall c :: c in pairs[0].0 ==> IsWordChar(c)) && (forall c :: c in pairs[0].1 ==> IsWordChar(c))
    ensures WordPairs(pairs[1..])
  {
    assert forall n :: 0 <= n < |pairs| - 1 ==> pairs[1..][n] == pairs[n + 1];
  }

  /** One step of the global scan: a match at `i` yields its pair and the scan resumes at its end. */
  lemma MatchesFromStep(s: string, i: nat, m: Match)
    requires i < |s| && MatchAt(s, i) == Some(m)
    ensures m.end <= |s|
    ensures MatchesFrom(s, i) == [(m.key, m.value)] + MatchesFrom(s, m.end)
  {
  }

  /**
   * The scanner finds every pair of a segment written from pairs, in order:
   * the text from index `i` on is scanned back into exactly those pairs.
   */
  lemma {:induction false} RenderMatches(s: string, i: nat, pairs: seq<(string, string)>)
    requires i <= |s| && s[i..] == Render(pairs) && WordPairs(pairs)
    ensures MatchesFrom(s, i) == pairs
    decreases |pairs|
  {
    if pairs == [] {
      assert |s[i..]| == 0;
    } else {
      var key, value, rest := pairs[0].0, pairs[0].1, pairs[1..];
      WordPairsSplit(pairs);
      assert pairs == [(key, value)] + rest;
      if rest == [] {
        LastPairMatch(s, i, key, value);
        MatchesFromStep(s, i, Match(key, value, |s|));
      } else {
        var end := i + |key| + 2 + |value|;
        InnerPairMatch(s, i, key, value, rest);
        MatchesFromStep(s, i, Match(key, value, end));
        RenderMatches(s, end, rest);
      }
    }
  }

  /** The example in `parseLinkParams`'s comment: `mode=set&value=max` yields both pairs in order. */
  lemma ModeSetValueMax()
    ensures MatchesFrom("mode=set&value=max", 0) == [("mode", "set"), ("value", "max")]
  {
    var pairs := [("mode", "set"), ("value", "max")];
    assert Render(pairs) == "mode=set&value=max";
    RenderMatches("mode=set&value=max", 0, pairs);
  }

  /**
   * The key a plain object's assignment never creates: its setter is inherited
   * and ignores a string value, so `params['__proto__'] = value` adds nothing.
   */
  const ProtoKey: string := "__proto__"

  /**
   * Assigns the pairs in order onto `m`: a later duplicate key overwrites an
   * earlier one, and an assignment to `__proto__` is ignored.
   */
  function Overlay(m: map<string, string>, pairs: seq<(string, string)>): (r: map<string, string>)
    decreases |pairs|
  {
    if pairs == [] then m
    else Overlay(if pairs[0].0 == ProtoKey then m else m[pairs[0].0 := pairs[0].1], pairs[1..])
  }

  /** The keys the pairs assign. */
  function AssignedKeys(pairs: seq<(string, string)>): (keys: set<string>)
    ensures forall k :: k in keys <==> exists i :: 0 <= i < |pairs| && pairs[i].0 == k
  {
    if pairs == [] then {}
    else
      var rest := AssignedKeys(pairs[1..]);
      assert forall i :: 0 < i < |pairs| ==> pairs[i] == pairs[1..][i - 1];
      {pairs[0].0} + rest
  }

  /** The result holds exactly the keys of `m` and the keys assigned, `__proto__` excepted. */
  lemma {:induction false} OverlayKeys(m: map<string, string>, pairs: seq<(string, string)>)
    ensures Overlay(m, pairs).Keys == m.Keys + (AssignedKeys(pairs) - {ProtoKey})
    decreases |pairs|
  {
    if pairs != [] {
      OverlayKeys(if pairs[0].0 == ProtoKey then m else m[pairs[0].0 := pairs[0].1], pairs[1..]);
    }
  }

  /** A key assigned by no pair keeps its value in `m`. */
  lemma {:induction false} OverlayUntouched(m: map<string, string>, pairs: seq<(string, string)>, k: string)
    requires k in m
    requires forall i :: 0 <= i < |pairs| ==> pairs[i].0 != k
    ensures k in Overlay(m, pairs) && Overlay(m, pairs)[k] == m[k]
    decreases |pairs|
  {
    if pairs != [] {
      assert pairs[0].0 != k;
      var rest := pairs[1..];
      assert forall i :: 0 <= i < |rest| ==> rest[i] == pairs[i + 1];
      OverlayUntouched(if pairs[0].0 == ProtoKey then m else m[pairs[0].0 := pairs[0].1], rest, k);
    }
  }

  /** A later duplicate key overwrites an earlier one: each key holds the value of its last pair. */
  lemma {:induction false} OverlayLastWins(m: map<string, string>, pairs: seq<(string, string)>, i: nat)
    requires i < |pairs| && pairs[i].0 != ProtoKey
    requires forall j :: i < j < |pairs| ==> pairs[j].0 != pairs[i].0
    ensures pairs[i].0 in Overlay(m, pairs) && Overlay(m, pairs)[pairs[i].0] == pairs[i].1
    decreases |pairs|
  {
    var m' := if pairs[0].0 == ProtoKey then m else m[pairs[0].0 := pairs[0].1];
    var rest := pairs[1..];
    assert forall j :: 0 <= j < |rest| ==> rest[j] == pairs[j + 1];
    if i > 0 {
      OverlayLastWins(m', rest, i - 1);
    } else {
      OverlayUntouched(m', rest, pairs[0].0);
    }
  }

  /**
   * The `replace` loop: every match of the pattern in `segment` assigns
   * `params[key] = value`, scanning left to right from where the last match
   * ended; the assignment to `__proto__` creates no key.
   */
  method ScanParams(segment: string) returns (params: map<string, string>)
    ensures params == Overlay(map[], MatchesFrom(segment, 0))
    ensures ProtoKey !in params
  {
    params := map[];
    var i := 0;
    while i < |segment|
      invariant i <= |segment|
      invariant Overlay(params, MatchesFrom(segment, i)) == Overlay(map[], MatchesFrom(segment, 0))
      invariant ProtoKey !in params
      decreases |segment| - i
    {
      match MatchAt(segment, i) {
        case Some(m) =>
          if m.key != ProtoKey {
            params := params[m.key := m.value];
          }
          i := m.end;
        case None =>
          i := i + 1;
      }
    }
  }

  /**
   * `parseLinkParams(link)`: null when the link has no `?`; otherwise the
   * parameters scanned from the segment between the first and second `?`.
   */
  method ParseLinkParams(link: string) returns (params: Option<map<string, string>>)
    ensures params.None? <==> Separator !in link
    ensures params.Some? ==>
      params.value == Overlay(map[], MatchesFrom(ParseLink(link[|ParseLink(link)| + 1..]), 0))
    ensures params.Some? ==> ProtoKey !in params.value
  {
    var parts := Split(link, Separator);
    if |parts| <= 1 {
      return None;
    }
    QuerySegment(link);
    var scanned := ScanParams(parts[1]);
    params := Some(scanned);
  }
}
