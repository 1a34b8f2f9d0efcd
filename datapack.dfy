/**
 * The validation and text helpers of src/datapack.js, with the `Namespace`
 * and `Tag` classes' constructors, `addTag`, `addValue` and `deleteValue`.
 *
 * A constructor that throws is modelled as a factory method returning a
 * `Result`: `Failure` carries the thrown error's message. `JSON.stringify` is
 * not modelled: `jsonBeautify` is given the text it would produce.
 */
module Datapack {
  import opened Wrappers

  // ---------------------------------------------------------------------
  // Name validation

  /** The characters of `[0-9a-z_\-.]`, and `/` as well when `slash` holds. */
  predicate Allowed(c: char, slash: bool)
  {
    ('0' <= c <= '9') || ('a' <= c <= 'z') || c == '_' || c == '-' || c == '.' || (slash && c == '/')
  }

  /** `s.replace(/[^...]/g, '')`: the allowed characters of `s`, in order. */
  function KeepAllowed(s: string, slash: bool): (r: string)
    ensures |r| <= |s|
  {
    if s == [] then []
    else (if Allowed(s[0], slash) then [s[0]] else []) + KeepAllowed(s[1..], slash)
  }

  /** `hasIllegalChars(s)`. */
  predicate HasIllegalChars(s: string)
  {
    s != KeepAllowed(s, false)
  }

  /** `hasIllegalCharsSlash(s)`. */
  predicate HasIllegalCharsSlash(s: string)
  {
    s != KeepAllowed(s, true)
  }

  /** Filtering changes a string exactly when one of its characters is not allowed. */
  lemma {:induction false} KeepAllowedChanges(s: string, slash: bool)
    ensures s != KeepAllowed(s, slash) <==> exists i :: 0 <= i < |s| && !Allowed(s[i], slash)
  {
    if s != [] {
      KeepAllowedChanges(s[1..], slash);
      if !Allowed(s[0], slash) {
        assert |KeepAllowed(s, slash)| < |s|;
      } else {
        assert forall i :: 0 < i < |s| ==> s[i] == s[1..][i - 1];
      }
    }
  }

  /** `hasIllegalChars(s)` holds iff some character is outside `[0-9a-z_\-.]`. */
  lemma IllegalCharsMeaning(s: string)
    ensures HasIllegalChars(s) <==> exists i :: 0 <= i < |s| && !Allowed(s[i], false)
    ensures HasIllegalCharsSlash(s) <==> exists i :: 0 <= i < |s| && !Allowed(s[i], true)
  {
    KeepAllowedChanges(s, false);
    KeepAllowedChanges(s, true);
  }

  // ---------------------------------------------------------------------
  // Ingredient lists

  /** `s.split('||')`: cut at each leftmost, non-overlapping occurrence of `||`. */
  function Split(s: string): (parts: seq<string>)
    ensures parts != []
    decreases |s|
  {
    if |s| < 2 then [s]
    else if s[0] == '|' && s[1] == '|' then [""] + Split(s[2..])
    else
      var rest := Split(s[1..]);
      [[s[0]] + rest[0]] + rest[1..]
  }

  /** The number of `||` occurrences `split` cuts at. */
  function Occurrences(s: string): nat
    decreases |s|
  {
    if |s| < 2 then 0
    else if s[0] == '|' && s[1] == '|' then 1 + Occurrences(s[2..])
    else Occurrences(s[1..])
  }

  /** `parts.join('||')`. */
  function Join(parts: seq<string>): string
  {
    if parts == [] then ""
    else if |parts| == 1 then parts[0]
    else parts[0] + "||" + Join(parts[1..])
  }

  /** `s` holds `||` at position `i`. */
  predicate BarsAt(s: string, i: int)
  {
    0 <= i && i + 1 < |s| && s[i] == '|' && s[i + 1] == '|'
  }

  /**
   * Splitting then joining gives the input back; there is one part more than
   * there are occurrences; no part holds `||`, and no part but the last ends
   * with `|` (the cuts are leftmost).
   */
  lemma SplitJoin(s: string)
    ensures Join(Split(s)) == s
    ensures |Split(s)| == Occurrences(s) + 1
    ensures forall k, i :: 0 <= k < |Split(s)| ==> !BarsAt(Split(s)[k], i)
    ensures forall k :: 0 <= k < |Split(s)| - 1 ==> Split(s)[k] == [] || Split(s)[k][|Split(s)[k]| - 1] != '|'
  {
    SplitRoundTrip(s);
    SplitCount(s);
    SplitNoBars(s);
    SplitLeftmost(s);
  }

  /** The first part of `Split(s)` and the parts after it, for a text not starting with `||`. */
  lemma SplitStep(s: string)
    requires |s| >= 2 && !BarsAt(s, 0)
    ensures Split(s) == [[s[0]] + Split(s[1..])[0]] + Split(s[1..])[1..]
  {
  }

  lemma {:induction false} SplitRoundTrip(s: string)
    ensures Join(Split(s)) == s
    decreases |s|
  {
    if |s| < 2 {
    } else if s[0] == '|' && s[1] == '|' {
      var rest := Split(s[2..]);
      SplitRoundTrip(s[2..]);
      assert ([""] + rest)[1..] == rest;
      assert Join([""] + rest) == "" + "||" + Join(rest);
      assert s == "||" + s[2..];
    } else {
      var rest := Split(s[1..]);
      SplitRoundTrip(s[1..]);
      SplitStep(s);
      JoinFirst(rest, s[0]);
      assert Join(Split(s)) == [s[0]] + s[1..];
    }
  }

  lemma {:induction false} SplitCount(s: string)
    ensures |Split(s)| == Occurrences(s) + 1
    decreases |s|
  {
    if |s| < 2 {
    } else if s[0] == '|' && s[1] == '|' {
      SplitCount(s[2..]);
    } else {
      SplitCount(s[1..]);
      SplitStep(s);
    }
  }

  lemma {:induction false} SplitNoBars(s: string)
    ensures forall k, i :: 0 <= k < |Split(s)| ==> !BarsAt(Split(s)[k], i)
    decreases |s|
  {
    if |s| < 2 {
    } else if s[0] == '|' && s[1] == '|' {
      SplitNoBars(s[2..]);
      assert Split(s) == [""] + Split(s[2..]);
      forall k, i | 0 <= k < |Split(s)|
        ensures !BarsAt(Split(s)[k], i)
      {
        if k > 0 {
          assert Split(s)[k] == Split(s[2..])[k - 1];
        }
      }
    } else {
      var rest := Split(s[1..]);
      SplitNoBars(s[1..]);
      SplitStep(s);
      var parts := [[s[0]] + rest[0]] + rest[1..];
      forall k, i | 0 <= k < |parts|
        ensures !BarsAt(parts[k], i)
      {
        if k == 0 {
          NoBarsPrepended(rest[0], s[0], i);
        } else {
          assert parts[k] == rest[k];
        }
      }
    }
  }

  /** No part but the last ends with `|`. */
  predicate CutsLeftmost(parts: seq<string>)
  {
    forall k :: 0 <= k < |parts| - 1 ==> parts[k] == [] || parts[k][|parts[k]| - 1] != '|'
  }

  lemma {:induction false} SplitLeftmost(s: string)
    ensures CutsLeftmost(Split(s))
    decreases |s|
  {
    if |s| < 2 {
    } else if s[0] == '|' && s[1] == '|' {
      SplitLeftmost(s[2..]);
      LeftmostAfterBars(s);
    } else {
      SplitLeftmost(s[1..]);
      LeftmostPrepend(s);
    }
  }

  /** A cut at the very start adds an empty first part. */
  lemma LeftmostAfterBars(s: string)
    requires BarsAt(s, 0) && CutsLeftmost(Split(s[2..]))
    ensures CutsLeftmost(Split(s))
  {
    var rest := Split(s[2..]);
    assert Split(s) == [""] + rest;
    forall k | 0 < k < |rest|
      ensures Split(s)[k] == rest[k - 1]
    {
    }
  }

  /** The step of `Split` for a text not starting with `||` keeps every cut leftmost. */
  lemma LeftmostPrepend(s: string)
    requires |s| >= 2 && !BarsAt(s, 0) && CutsLeftmost(Split(s[1..]))
    ensures CutsLeftmost(Split(s))
  {
    var rest := Split(s[1..]);
    SplitStep(s);
    if rest[0] == [] && |rest| > 1 {
      LeftmostHead(s);
    }
    PrependKeepsCuts(rest, s[0]);
  }

  /** Prepending `c` to the first part keeps every cut leftmost, unless `c` is `|` and would end a part. */
  lemma PrependKeepsCuts(rest: seq<string>, c: char)
    requires rest != [] && CutsLeftmost(rest)
    requires rest[0] == [] && |rest| > 1 ==> c != '|'
    ensures CutsLeftmost([[c] + rest[0]] + rest[1..])
  {
    var parts := [[c] + rest[0]] + rest[1..];
    forall k | 0 < k < |parts|
      ensures parts[k] == rest[k]
    {
    }
    assert parts[0] == [c] + rest[0];
  }

  /** An empty first part of `Split(s[1..])` with more parts after it means `s[1..]` starts with `||`. */
  lemma LeftmostHead(s: string)
    requires |s| >= 2 && !BarsAt(s, 0)
    requires |Split(s[1..])| > 1 && Split(s[1..])[0] == []
    ensures s[0] != '|'
  {
    SplitRoundTrip(s[1..]);
    JoinPrefix(Split(s[1..]));
    assert BarsAt(s, 1);
  }

  /** Joining with a longer first part. */
  lemma JoinFirst(parts: seq<string>, c: char)
    requires parts != []
    ensures Join([[c] + parts[0]] + parts[1..]) == [c] + Join(parts)
  {
    var parts' := [[c] + parts[0]] + parts[1..];
    if |parts| > 1 {
      assert parts'[1..] == parts[1..];
    }
  }

  /** An empty first part of several means the joined text starts with `||`. */
  lemma JoinPrefix(parts: seq<string>)
    requires |parts| > 1 && parts[0] == []
    ensures BarsAt(Join(parts), 0)
  {
    assert Join(parts) == "||" + Join(parts[1..]);
  }

  /**
   * Prepending `c` to the first part cannot create `||` there: `c` is not a
   * `|` followed by `|`, because the text did not start with `||`.
   */
  lemma NoBarsPrepended(part: string, c: char, i: int)
    requires forall j :: !BarsAt(part, j)
    requires part != [] && part[0] == '|' ==> c != '|'
    ensures !BarsAt([c] + part, i)
  {
    if 0 < i {
      assert !BarsAt(part, i - 1);
    }
  }

  /** One entry of an ingredient list: `{tag: ...}` or `{item: ...}`. */
  datatype Ingredient = TagRef(tag: string) | ItemRef(item: string)

  /** A part starting with `#` names a tag (without the `#`); anything else, the empty part included, an item. */
  function ParseIngredient(part: string): (r: Ingredient)
  {
    if part != [] && part[0] == '#' then TagRef(part[1..]) else ItemRef(part)
  }

  /** The text an ingredient was parsed from. */
  function IngredientText(i: Ingredient): string
  {
    match i
    case TagRef(t) => "#" + t
    case ItemRef(x) => x
  }

  /** `itemArrayFromString(s)`. */
  function ItemArrayFromString(s: string): (r: seq<Ingredient>)
    ensures |r| == |Split(s)|
  {
    var parts := Split(s);
    seq(|parts|, k requires 0 <= k < |parts| => ParseIngredient(parts[k]))
  }

  /** The texts of a list of ingredients. */
  function Texts(items: seq<Ingredient>): (r: seq<string>)
    ensures |r| == |items| && forall k :: 0 <= k < |items| ==> r[k] == IngredientText(items[k])
  {
    if items == [] then [] else [IngredientText(items[0])] + Texts(items[1..])
  }

  /**
   * One ingredient per `||`-separated part, one more than there are `||`;
   * writing each back and joining with `||` gives the input.
   */
  lemma ItemArrayRoundTrip(s: string)
    ensures |ItemArrayFromString(s)| == Occurrences(s) + 1
    ensures Join(Texts(ItemArrayFromString(s))) == s
  {
    var items := ItemArrayFromString(s);
    SplitJoin(s);
    var texts := Texts(items);
    forall k | 0 <= k < |items|
      ensures texts[k] == Split(s)[k]
    {
      var part := Split(s)[k];
      if part != [] && part[0] == '#' {
        assert part == "#" + part[1..];
      }
    }
    assert texts == Split(s);
  }

  // ---------------------------------------------------------------------
  // jsonBeautify

  predicate Opens(c: char) { c == '{' || c == '[' }

  predicate Closes(c: char) { c == '}' || c == ']' }

  function Tabs(n: nat): (r: string)
    ensures |r| == n && forall k :: 0 <= k < n ==> r[k] == '\t'
  {
    if n == 0 then "" else Tabs(n - 1) + "\t"
  }

  /** The bracket depth after reading `c` at depth `depth`. */
  function NextDepth(c: char, depth: int): int
  {
    if Opens(c) then depth + 1 else if Closes(c) then depth - 1 else depth
  }

  /** The bracket depth, starting from `depth`, never drops below 0 while reading `text`. */
  predicate NeverNegative(text: string, depth: int)
    decreases |text|
  {
    text == [] || (0 <= depth && 0 <= NextDepth(text[0], depth) && NeverNegative(text[1..], NextDepth(text[0], depth)))
  }

  /**
   * What one character of the input becomes at bracket depth `depth`: a
   * line break and the new depth in tabs after every `{`, `[` and `,`; a line
   * break and the depth after closing in tabs before every `}` and `]`.
   * Brackets inside string literals count like any other.
   */
  function Piece(c: char, depth: nat): string
    requires 0 <= NextDepth(c, depth)
  {
    if Opens(c) then [c] + "\n" + Tabs(depth + 1)
    else if Closes(c) then "\n" + Tabs(depth - 1) + [c]
    else if c == ',' then [c] + "\n" + Tabs(depth)
    else [c]
  }

  /** The layout `jsonBeautify` gives `text` read from bracket depth `depth`. */
  function Pretty(text: string, depth: nat): string
    requires NeverNegative(text, depth)
    decreases |text|
  {
    if text == [] then "" else Piece(text[0], depth) + Pretty(text[1..], NextDepth(text[0], depth))
  }

  /** Deleting every line break and tab. */
  function StripLayout(s: string): string
  {
    if s == [] then "" else (if s[0] == '\n' || s[0] == '\t' then "" else [s[0]]) + StripLayout(s[1..])
  }

  lemma {:induction false} StripAppend(a: string, b: string)
    ensures StripLayout(a + b) == StripLayout(a) + StripLayout(b)
  {
    if a != [] {
      StripAppend(a[1..], b);
      var head := if a[0] == '\n' || a[0] == '\t' then "" else [a[0]];
      assert (a + b)[0] == a[0];
      assert (a + b)[1..] == a[1..] + b;
      calc {
        StripLayout(a + b);
        head + StripLayout(a[1..] + b);
        head + (StripLayout(a[1..]) + StripLayout(b));
        (head + StripLayout(a[1..])) + StripLayout(b);
      }
    } else {
      assert a + b == b;
    }
  }

  lemma {:induction false} StripTabs(n: nat)
    ensures StripLayout(Tabs(n)) == ""
  {
    if n > 0 {
      StripTabs(n - 1);
      StripAppend(Tabs(n - 1), "\t");
    }
  }

  /** Only the character itself survives deleting the layout of its piece. */
  lemma StripPiece(c: char, depth: nat)
    requires 0 <= NextDepth(c, depth)
    requires c != '\n' && c != '\t'
    ensures StripLayout(Piece(c, depth)) == [c]
  {
    if Opens(c) || c == ',' {
      var d: nat := NextDepth(c, depth);
      StripTabs(d);
      StripAppend([c] + "\n", Tabs(d));
      StripAppend([c], "\n");
    } else if Closes(c) {
      StripTabs(depth - 1);
      StripAppend("\n" + Tabs(depth - 1), [c]);
      StripAppend("\n", Tabs(depth - 1));
    }
  }

  /** Deleting the inserted line breaks and tabs gives back a text that had none. */
  lemma {:induction false} PrettyStrips(text: string, depth: nat)
    requires NeverNegative(text, depth)
    requires forall k :: 0 <= k < |text| ==> text[k] != '\n' && text[k] != '\t'
    ensures StripLayout(Pretty(text, depth)) == text
    decreases |text|
  {
    if text != [] {
      var c := text[0];
      var d: nat := NextDepth(c, depth);
      PrettyStrips(text[1..], d);
      StripPiece(c, depth);
      StripAppend(Piece(c, depth), Pretty(text[1..], d));
      assert text == [c] + text[1..];
    }
  }

  /** `json.splice(p, 0, c)`. */
  function InsertAt(s: string, p: nat, c: char): (r: string)
    requires p <= |s|
    ensures |r| == |s| + 1
  {
    s[..p] + [c] + s[p..]
  }

  /**
   * The splices of one case of `jsonBeautify`'s switch: a line break at `p`,
   * then `n` tabs, one at a time, each right after the previous insertion.
   */
  method InsertLayout(json: string, p: nat, n: nat) returns (r: string)
    requires p <= |json|
    ensures r == json[..p] + ("\n" + Tabs(n)) + json[p..]
  {
    r := InsertAt(json, p, '\n');
    var j := 0;
    while j < n
      invariant 0 <= j <= n && r == json[..p] + "\n" + Tabs(j) + json[p..]
    {
      r := InsertAt(r, p + j + 1, '\t');
      j := j + 1;
    }
    assert json[..p] + "\n" + Tabs(n) == json[..p] + ("\n" + Tabs(n));
  }

  /** Nothing but line breaks and tabs. */
  predicate IsLayout(s: string)
  {
    forall m :: 0 <= m < |s| ==> s[m] == '\n' || s[m] == '\t'
  }

  /** Reading the character at `k` turns it into its piece and moves on to `k + 1`. */
  lemma PrettyAt(text: string, k: nat, depth: nat)
    requires k < |text| && NeverNegative(text[k..], depth)
    ensures 0 <= NextDepth(text[k], depth) && NeverNegative(text[k + 1..], NextDepth(text[k], depth))
    ensures Pretty(text[k..], depth) == Piece(text[k], depth) + Pretty(text[k + 1..], NextDepth(text[k], depth))
  {
    assert text[k..][0] == text[k] && text[k..][1..] == text[k + 1..];
  }

  /** Where the layout sits in a piece. */
  lemma PieceShape(c: char, depth: nat)
    requires 0 <= NextDepth(c, depth)
    ensures Opens(c) || c == ',' ==>
              Piece(c, depth) == [c] + ("\n" + Tabs(NextDepth(c, depth))) && IsLayout(Piece(c, depth)[1..])
    ensures Closes(c) ==> Piece(c, depth) == ("\n" + Tabs(NextDepth(c, depth))) + [c]
    ensures !Opens(c) && !Closes(c) && c != ',' ==> Piece(c, depth) == [c]
  {
    if Opens(c) || c == ',' {
      assert Piece(c, depth)[1..] == "\n" + Tabs(NextDepth(c, depth));
    }
  }

  /** Splicing `layout` next to the character after `done` replaces that character by its piece. */
  lemma Replace(done: string, c: char, rest: string, layout: string)
    ensures var json := done + [c] + rest;
            && json[..|done| + 1] + layout + json[|done| + 1..] == (done + ([c] + layout)) + rest
            && json[..|done|] + layout + json[|done|..] == (done + (layout + [c])) + rest
  {
    var json := done + [c] + rest;
    assert json[..|done|] == done;
    assert json[|done|..] == [c] + rest;
    assert json[|done| + 1..] == rest;
    assert json[..|done| + 1] == done + [c];
  }

  /**
   * One pass of the loop body over the character at `i`: the depth moves;
   * after `{`, `[` and `,` a line break and the new depth in tabs go in after
   * the character, before `}` and `]` they go in before it and `i` jumps to
   * it; anything else is left alone.
   */
  predicate Spliced(json: string, i: nat, indent: nat, json': string, i': nat, indent': nat)
    requires i < |json|
  {
    && indent' == NextDepth(json[i], indent)
    && (Opens(json[i]) || json[i] == ',' ==>
          json' == json[..i + 1] + ("\n" + Tabs(indent')) + json[i + 1..] && i' == i)
    && (Closes(json[i]) ==> json' == json[..i] + ("\n" + Tabs(indent')) + json[i..] && i' == i + indent' + 1)
    && (!Opens(json[i]) && !Closes(json[i]) && json[i] != ',' ==> json' == json && i' == i)
  }

  /**
   * The loop's invariant: the first `k` characters of the input are done,
   * laid out as `done`, and `i` is at most a run of inserted layout short
   * of them.
   */
  ghost predicate Progress(text: string, json: string, i: nat, indent: nat, k: nat, done: string)
  {
    && NeverNegative(text, 0)
    && k <= |text| && NeverNegative(text[k..], indent)
    && json == done + text[k..]
    && done + Pretty(text[k..], indent) == Pretty(text, 0)
    && i <= |done| && IsLayout(done[i..])
  }

  /** A close bracket at `i` never takes the depth below 0. */
  lemma ProgressDepth(text: string, json: string, i: nat, indent: nat, k: nat, done: string)
    requires Progress(text, json, i, indent, k, done) && i < |json|
    ensures 0 <= NextDepth(json[i], indent)
  {
    if i < |done| {
      assert json[i] == done[i..][0];
    } else {
      PrettyAt(text, k, indent);
    }
  }

  /**
   * One pass of the loop keeps the invariant, and either finishes a character
   * of the input or skips one inserted layout character.
   */
  lemma {:induction false} SpliceKeepsProgress(text: string, json: string, i: nat, indent: nat, k: nat, done: string,
                                               json': string, i': nat, indent': nat)
      returns (k': nat, done': string)
    requires Progress(text, json, i, indent, k, done) && i < |json|
    requires Spliced(json, i, indent, json', i', indent')
    ensures Progress(text, json', i' + 1, indent', k', done')
    ensures k' == k + 1 || (k' == k && done' == done && i' == i && i < |done|)
  {
    if i < |done| {
      SkipLayout(text, json, i, indent, k, done, json', i', indent');
      k', done' := k, done;
    } else {
      k', done' := k + 1, done + Piece(json[i], indent);
      FinishCharacter(text, json, indent, k, done, json', i', indent');
    }
  }

  /** An inserted line break or tab is passed over unchanged. */
  lemma SkipLayout(text: string, json: string, i: nat, indent: nat, k: nat, done: string,
                   json': string, i': nat, indent': nat)
    requires Progress(text, json, i, indent, k, done) && i < |done|
    requires Spliced(json, i, indent, json', i', indent')
    ensures Progress(text, json', i' + 1, indent', k, done) && json' == json && i' == i
  {
    assert json[i] == done[i..][0];
    assert done[i..][1..] == done[i + 1..];
  }

  /** The character of the input after `done` becomes its piece. */
  lemma FinishCharacter(text: string, json: string, indent: nat, k: nat, done: string,
                        json': string, i': nat, indent': nat)
    requires Progress(text, json, |done|, indent, k, done) && |done| < |json|
    requires Spliced(json, |done|, indent, json', i', indent')
    ensures Progress(text, json', i' + 1, indent', k + 1, done + Piece(json[|done|], indent))
  {
    var c := json[|done|];
    var rest := text[k + 1..];
    assert json == done + [c] + rest by {
      assert text[k..] == [c] + rest;
    }
    PrettyAt(text, k, indent);
    SplicedIsPiece(done, c, rest, indent, json', i', indent');
    AdvanceProgress(text, k, indent, done, Piece(c, indent), indent', json', i' + 1);
  }

  /** The invariant after appending `piece`, the layout of the input character at `k`, to `done`. */
  lemma AdvanceProgress(text: string, k: nat, indent: nat, done: string, piece: string, indent': nat,
                        json': string, j: nat)
    requires NeverNegative(text, 0) && k < |text|
    requires NeverNegative(text[k..], indent) && NeverNegative(text[k + 1..], indent')
    requires done + Pretty(text[k..], indent) == Pretty(text, 0)
    requires Pretty(text[k..], indent) == piece + Pretty(text[k + 1..], indent')
    requires json' == (done + piece) + text[k + 1..]
    requires j <= |done + piece| && IsLayout((done + piece)[j..])
    ensures Progress(text, json', j, indent', k + 1, done + piece)
  {
    Regroup(done, piece, Pretty(text[k + 1..], indent'));
  }

  lemma Regroup(a: string, b: string, c: string)
    ensures (a + b) + c == a + (b + c)
  {
  }

  /** The splices around the character after `done` replace it by its piece, followed by the input's rest. */
  lemma SplicedIsPiece(done: string, c: char, rest: string, indent: nat, json': string, i': nat, indent': nat)
    requires 0 <= NextDepth(c, indent)
    requires Spliced(done + [c] + rest, |done|, indent, json', i', indent')
    ensures json' == (done + Piece(c, indent)) + rest
    ensures i' + 1 <= |done + Piece(c, indent)| && IsLayout((done + Piece(c, indent))[i' + 1..])
  {
    assert (done + [c] + rest)[|done|] == c;
    Replace(done, c, rest, "\n" + Tabs(NextDepth(c, indent)));
    PieceShape(c, indent);
    var piece := Piece(c, indent);
    if Opens(c) || c == ',' {
      assert (done + piece)[|done| + 1..] == piece[1..];
    }
  }

  /**
   * The body of `jsonBeautify`'s loop for the character at `i`: the switch
   * on it, with the splices of each case and the jump past a close bracket.
   */
  method SpliceAt(json: string, i: nat, indent: nat) returns (json': string, i': nat, indent': nat)
    requires i < |json| && 0 <= NextDepth(json[i], indent)
    ensures Spliced(json, i, indent, json', i', indent')
  {
    json', i', indent' := json, i, indent;
    var c := json[i];
    if Opens(c) {
      indent' := indent + 1;
      json' := InsertLayout(json, i + 1, indent');
    } else if Closes(c) {
      indent' := indent - 1;
      json' := InsertLayout(json, i, indent');
      i' := i + indent' + 1;
    } else if c == ',' {
      json' := InsertLayout(json, i + 1, indent);
    }
  }

  /**
   * `jsonBeautify` applied to the text `JSON.stringify` produced: a `for`
   * loop over the growing character array that splices line breaks and tabs
   * in place around brackets and commas, and skips over what it inserted.
   * With a close bracket taking the depth below 0 the source loops forever,
   * hence the precondition.
   */
  method JsonBeautify(text: string) returns (out: string)
    requires NeverNegative(text, 0)
    ensures out == Pretty(text, 0)
  {
    var json := text;
    var indent: nat := 0;
    var i: nat := 0;
    ghost var k: nat := 0;
    ghost var done := "";
    while i < |json|
      invariant Progress(text, json, i, indent, k, done)
      decreases |text| - k, |done| - i
    {
      ProgressDepth(text, json, i, indent, k, done);
      var json', i', indent' := SpliceAt(json, i, indent);
      k, done := SpliceKeepsProgress(text, json, i, indent, k, done, json', i', indent');
      json, i, indent := json', i' + 1, indent';
    }
    out := json;
  }

  // ---------------------------------------------------------------------
  // Tags and namespaces

  /** The three tag types; each has its own dictionary in a namespace. */
  datatype TagType = Block | Item | Function

  /** `['block', 'item', 'function'].includes(type)`. */
  function ParseTagType(s: string): (r: Option<TagType>)
    ensures r.Some? <==> s == "block" || s == "item" || s == "function"
    ensures r.Some? ==> TypeName(r.value) == s
  {
    if s == "block" then Some(Block)
    else if s == "item" then Some(Item)
    else if s == "function" then Some(Function)
    else None
  }

  function TypeName(t: TagType): string
  {
    match t
    case Block => "block"
    case Item => "item"
    case Function => "function"
  }

  /** A JavaScript array of strings, shared by reference. */
  class StringList {
    var items: seq<string>

    constructor (items: seq<string>)
      ensures this.items == items
    {
      this.items := items;
    }
  }

  /** `values.indexOf(value)`: the first index of `value`, or -1. */
  function IndexOf(s: seq<string>, value: string): (r: int)
    ensures -1 <= r < |s|
    ensures r == -1 <==> value !in s
    ensures r >= 0 ==> s[r] == value && value !in s[..r]
  {
    if s == [] then -1
    else if s[0] == value then 0
    else
      var r := IndexOf(s[1..], value);
      assert s[1..][..(if r < 0 then 0 else r)] == s[1..(if r < 0 then 1 else r + 1)];
      if r < 0 then -1 else r + 1
  }

  /** The values before the first occurrence of `value`, or all of them when it is absent. */
  function PrefixBefore(s: seq<string>, value: string): (r: seq<string>)
    ensures value !in r
    ensures r <= s
    ensures value !in s ==> r == s
    ensures value in s ==> s[|r|] == value
  {
    if value in s then s[..IndexOf(s, value)] else s
  }

  class Tag {
    var path: string
    var kind: TagType
    var values: StringList

    constructor (path: string, kind: TagType, values: StringList)
      ensures this.path == path && this.kind == kind && this.values == values
    {
      this.path := path;
      this.kind := kind;
      this.values := values;
    }

    /** `addValue(value)`: `values.push(value)` on the shared array. */
    method AddValue(value: string)
      modifies values
      ensures values.items == old(values.items) + [value]
    {
      values.items := values.items + [value];
    }

    /**
     * `deleteValue(value)`: while the value is present, `splice(indexOf)`
     * with no count cuts the array at its first occurrence, dropping
     * everything after it as well.
     */
    method DeleteValue(value: string)
      modifies values
      ensures values.items == PrefixBefore(old(values.items), value)
      ensures value !in values.items && values.items <= old(values.items)
    {
      while IndexOf(values.items, value) + 1 != 0
        invariant values.items == old(values.items) || values.items == PrefixBefore(old(values.items), value)
        decreases |values.items|
      {
        values.items := values.items[..IndexOf(values.items, value)];
      }
    }

    /**
     * `Tag.copy(tag)`: a new tag whose own properties are the original's;
     * `values` is the same array, so later `addValue` calls on either are seen
     * by both.
     */
    method Copy() returns (copy: Tag)
      ensures fresh(copy) && copy.path == path && copy.kind == kind && copy.values == values
    {
      var placeholder := new StringList([]);
      copy := new Tag("_", Block, placeholder);
      copy.path := path;
      copy.kind := kind;
      copy.values := values;
    }
  }

  const TagPathError := "The names of tags can only contain the following characters 0-9, a-z, _, -, ., /"

  /**
   * `new Tag(path, type, values)`: the path is checked first, then the type;
   * a missing `values` becomes a new empty array, a given one is shared.
   */
  method NewTag(path: string, tagType: string, values: Option<StringList>) returns (r: Result<Tag, string>)
    ensures HasIllegalCharsSlash(path) ==> r == Failure(TagPathError)
    ensures !HasIllegalCharsSlash(path) && ParseTagType(tagType).None? ==>
              r == Failure(tagType + " is not a valid tag type")
    ensures !HasIllegalCharsSlash(path) && ParseTagType(tagType).Some? ==>
              && r.Success? && fresh(r.value) && r.value.path == path && r.value.kind == ParseTagType(tagType).value
              && (values.Some? ==> r.value.values == values.value)
              && (values.None? ==> fresh(r.value.values) && r.value.values.items == [])
  {
    if HasIllegalCharsSlash(path) {
      return Failure(TagPathError);
    }
    var kind := ParseTagType(tagType);
    if kind.None? {
      return Failure(tagType + " is not a valid tag type");
    }
    var list: StringList;
    if values.Some? {
      list := values.value;
    } else {
      list := new StringList([]);
    }
    var tag := new Tag(path, kind.value, list);
    r := Success(tag);
  }

  const NamespaceNameError := "Namespace names can only contain the following characters 0-9, a-z, _, -, ."
  const MinecraftNamespaceError :=
    "The Datapack class creates the minecraft namespace by default, datapack.minecraft, adding it a second time will cause it to be overridden"

  class Namespace {
    const name: string
    var blockTags: map<string, Tag>
    var itemTags: map<string, Tag>
    var functionTags: map<string, Tag>
    var recipes: map<string, object>
    var lootTables: map<string, object>

    constructor (name: string)
      ensures this.name == name
      ensures blockTags == map[] && itemTags == map[] && functionTags == map[]
      ensures recipes == map[] && lootTables == map[]
    {
      this.name := name;
      blockTags := map[];
      itemTags := map[];
      functionTags := map[];
      recipes := map[];
      lootTables := map[];
    }

    /** `this[`${type}Tags`]`. */
    function TagsOf(kind: TagType): map<string, Tag>
      reads this
    {
      match kind
      case Block => blockTags
      case Item => itemTags
      case Function => functionTags
    }

    /**
     * `addTag(tag)`: refuses a path already present in that type's
     * dictionary; otherwise stores a copy of the tag under its path and
     * returns the copy.
     */
    method AddTag(tag: Tag) returns (r: Result<Tag, string>)
      modifies this
      ensures tag.path in old(TagsOf(tag.kind)) ==>
                && r == Failure("The tag " + TypeName(tag.kind) + "/" + tag.path + " has already been added to this namespace")
                && unchanged(this)
      ensures tag.path !in old(TagsOf(tag.kind)) ==>
                && r.Success? && fresh(r.value)
                && r.value.path == tag.path && r.value.kind == tag.kind && r.value.values == tag.values
                && TagsOf(tag.kind) == old(TagsOf(tag.kind))[tag.path := r.value]
                && (forall other :: other != tag.kind ==> TagsOf(other) == old(TagsOf(other)))
      ensures recipes == old(recipes) && lootTables == old(lootTables)
    {
      if tag.path in TagsOf(tag.kind) {
        return Failure("The tag " + TypeName(tag.kind) + "/" + tag.path + " has already been added to this namespace");
      }
      var copy := tag.Copy();
      match tag.kind {
        case Block => blockTags := blockTags[tag.path := copy];
        case Item => itemTags := itemTags[tag.path := copy];
        case Function => functionTags := functionTags[tag.path := copy];
      }
      r := Success(copy);
    }
  }

  /** `new Namespace(name)`: illegal characters are refused first, then the name `minecraft`. */
  method NewNamespace(name: string) returns (r: Result<Namespace, string>)
    ensures HasIllegalChars(name) ==> r == Failure(NamespaceNameError)
    ensures !HasIllegalChars(name) && name == "minecraft" ==> r == Failure(MinecraftNamespaceError)
    ensures !HasIllegalChars(name) && name != "minecraft" ==>
              && r.Success? && fresh(r.value) && r.value.name == name
              && r.value.blockTags == map[] && r.value.itemTags == map[] && r.value.functionTags == map[]
              && r.value.recipes == map[] && r.value.lootTables == map[]
  {
    if HasIllegalChars(name) {
      return Failure(NamespaceNameError);
    }
    if name == "minecraft" {
      return Failure(MinecraftNamespaceError);
    }
    var ns := new Namespace(name);
    r := Success(ns);
  }

  /**
   * A tag added to a namespace shares its values with the tag it was copied
   * from: a value added through the original is seen through the stored copy.
   */
  method SharedValuesExample() returns (seen: seq<string>)
    ensures seen == ["minecraft:stone"]
  {
    var made := NewTag("ores", "block", None);
    var ns := NewNamespace("demo");
    var stored := ns.value.AddTag(made.value);
    made.value.AddValue("minecraft:stone");
    seen := stored.value.values.items;
  }
}
