/** Parsing of the `data-typed-items` attribute of the typing effect: the
    attribute is split at commas, every piece is trimmed, empty pieces are
    dropped, and the effect is only built when some piece is left. */
module TypedStrings {
  import opened Dom

  /** The characters `String.prototype.trim` removes: ECMAScript white space
      (including the Unicode space separators) and line terminators. */
  predicate IsJsSpace(c: char) {
    c == ' ' || c == '\t' || c == '\n' || c == '\r' || c == '\U{000B}' || c == '\U{000C}' ||
    c == '\U{00A0}' || c == '\U{FEFF}' || c == '\U{1680}' || ('\U{2000}' <= c <= '\U{200A}') ||
    c == '\U{2028}' || c == '\U{2029}' || c == '\U{202F}' || c == '\U{205F}' || c == '\U{3000}'
  }

  /** Neither starts nor ends with a space character. */
  predicate IsTrimmed(s: string) {
    |s| > 0 ==> !IsJsSpace(s[0]) && !IsJsSpace(s[|s| - 1])
  }

  /** `s.split(sep)`: the pieces between separators, in order; a string
      without separators is a single piece, so the empty string gives [""]. */
  function Split(s: string, sep: char): (parts: seq<string>)
    ensures 1 <= |parts|
    ensures forall i | 0 <= i < |parts| :: sep !in parts[i]
    decreases |s|
  {
    if |s| == 0 then [""]
    else
      var rest := Split(s[1..], sep);
      if s[0] == sep then [""] + rest
      else [[s[0]] + rest[0]] + rest[1..]
  }

  /** `parts.join(sep)`. */
  function Join(parts: seq<string>, sep: char): string
    decreases |parts|
  {
    if |parts| == 0 then ""
    else if |parts| == 1 then parts[0]
    else parts[0] + [sep] + Join(parts[1..], sep)
  }

  /** Joining the pieces of a split gives the string back. */
  lemma {:induction false} JoinSplit(s: string, sep: char)
    ensures Join(Split(s, sep), sep) == s
    decreases |s|
  {
    if |s| > 0 {
      JoinSplit(s[1..], sep);
      var rest := Split(s[1..], sep);
      if s[0] == sep {
        assert ([""] + rest)[1..] == rest;
      } else {
        var parts := [[s[0]] + rest[0]] + rest[1..];
        assert parts[1..] == rest[1..];
      }
    }
  }

  lemma {:induction false} SplitWithoutSeparator(p: string, sep: char)
    requires sep !in p
    ensures Split(p, sep) == [p]
    decreases |p|
  {
    if |p| > 0 {
      assert sep !in p[1..];
      SplitWithoutSeparator(p[1..], sep);
      assert [p[0]] + p[1..] == p;
    }
  }

  lemma {:induction false} SplitAfterPiece(p: string, t: string, sep: char)
    requires sep !in p
    ensures Split(p + [sep] + t, sep) == [p] + Split(t, sep)
    decreases |p|
  {
    var s := p + [sep] + t;
    if |p| == 0 {
      assert s[1..] == t;
    } else {
      assert s[0] == p[0] && s[1..] == p[1..] + [sep] + t;
      assert sep !in p[1..];
      SplitAfterPiece(p[1..], t, sep);
      assert [p[0]] + p[1..] == p;
    }
  }

  /** Splitting a join of separator-free pieces gives the pieces back. */
  lemma {:induction false} SplitJoin(parts: seq<string>, sep: char)
    requires 1 <= |parts|
    requires forall i | 0 <= i < |parts| :: sep !in parts[i]
    ensures Split(Join(parts, sep), sep) == parts
    decreases |parts|
  {
    if |parts| == 1 {
      SplitWithoutSeparator(parts[0], sep);
    } else {
      SplitJoin(parts[1..], sep);
      SplitAfterPiece(parts[0], Join(parts[1..], sep), sep);
    }
  }

  /** The index of the first non-space character of `s` at or after `i`,
      or `|s|` when there is none. */
  function SkipSpaces(s: string, i: nat): (j: nat)
    requires i <= |s|
    ensures i <= j <= |s|
    ensures forall k | i <= k < j :: IsJsSpace(s[k])
    ensures j < |s| ==> !IsJsSpace(s[j])
    decreases |s| - i
  {
    if i < |s| && IsJsSpace(s[i]) then SkipSpaces(s, i + 1) else i
  }

  /** The end of `s[lo..hi]` once its trailing space characters are dropped. */
  function SkipSpacesBack(s: string, lo: nat, hi: nat): (j: nat)
    requires lo <= hi <= |s|
    ensures lo <= j <= hi
    ensures forall k | j <= k < hi :: IsJsSpace(s[k])
    ensures lo < j ==> !IsJsSpace(s[j - 1])
    decreases hi
  {
    if lo < hi && IsJsSpace(s[hi - 1]) then SkipSpacesBack(s, lo, hi - 1) else hi
  }

  /** `s.trim()`: `s` without its leading and trailing space characters. It
      is empty exactly when `s` is all spaces. */
  function Trim(s: string): (r: string)
    ensures IsTrimmed(r)
    ensures r == "" <==> forall i | 0 <= i < |s| :: IsJsSpace(s[i])
  {
    var a := SkipSpaces(s, 0);
    var b := SkipSpacesBack(s, a, |s|);
    assert a < |s| ==> a < b;
    s[a..b]
  }

  /** What `Trim` keeps is a slice of `s`: everything before it and
      everything after it is space. */
  lemma TrimIsSlice(s: string)
    ensures exists a, b | 0 <= a <= b <= |s| ::
              Trim(s) == s[a..b] && (forall i | 0 <= i < a :: IsJsSpace(s[i])) && (forall i | b <= i < |s| :: IsJsSpace(s[i]))
  {
    var a := SkipSpaces(s, 0);
    var b := SkipSpacesBack(s, a, |s|);
    assert Trim(s) == s[a..b];
  }

  /** Trimming adds no character: what `s` lacks, `Trim(s)` lacks too. */
  lemma TrimKeepsOut(s: string, c: char)
    requires c !in s
    ensures c !in Trim(s)
  {
    var a := SkipSpaces(s, 0);
    var b := SkipSpacesBack(s, a, |s|);
    assert forall i | 0 <= i < b - a :: s[a..b][i] == s[a + i];
  }

  /** A piece that is already trimmed is left as it is. */
  lemma TrimTrimmed(s: string)
    requires IsTrimmed(s)
    ensures Trim(s) == s
  {
    assert SkipSpaces(s, 0) == 0;
    assert SkipSpacesBack(s, 0, |s|) == |s|;
    assert s[0..|s|] == s;
  }

  /** `.map((s) => s.trim())`. */
  function TrimAll(parts: seq<string>): (r: seq<string>)
    ensures |r| == |parts| && forall i | 0 <= i < |r| :: r[i] == Trim(parts[i])
  {
    Map(parts, Trim)
  }

  /** Trimming a concatenation trims each part. */
  lemma TrimAllAppend(a: seq<string>, b: seq<string>)
    ensures TrimAll(a + b) == TrimAll(a) + TrimAll(b)
  {
    MapAppend(a, b, Trim);
  }

  /** `.filter(Boolean)` on strings: drops the empty ones, keeping the order. */
  function DropEmpty(parts: seq<string>): (r: seq<string>)
    ensures forall i | 0 <= i < |r| :: r[i] != "" && r[i] in parts
    ensures forall x | x in parts && x != "" :: x in r
    ensures (forall i | 0 <= i < |parts| :: parts[i] != "") ==> r == parts
    decreases |parts|
  {
    if |parts| == 0 then []
    else if parts[0] == "" then DropEmpty(parts[1..])
    else
      assert parts == [parts[0]] + parts[1..];
      [parts[0]] + DropEmpty(parts[1..])
  }

  /** Filtering a concatenation filters each part. */
  lemma {:induction false} DropEmptyAppend(a: seq<string>, b: seq<string>)
    ensures DropEmpty(a + b) == DropEmpty(a) + DropEmpty(b)
    decreases |a|
  {
    if |a| == 0 {
      assert a + b == b;
    } else {
      assert (a + b)[0] == a[0];
      assert (a + b)[1..] == a[1..] + b;
      DropEmptyAppend(a[1..], b);
    }
  }

  /** A single string is kept exactly when it is not empty. */
  lemma DropEmptySingle(x: string)
    ensures DropEmpty([x]) == if x == "" then [] else [x]
  {
    assert [x][1..] == [];
  }

  /** The list of strings read from the attribute: every item is non-empty,
      trimmed and free of commas. */
  function ParseTypedItems(attribute: string): (items: seq<string>)
    ensures forall i | 0 <= i < |items| :: items[i] != "" && IsTrimmed(items[i]) && ',' !in items[i]
  {
    TrimmedPiecesCommaFree(attribute);
    DropEmpty(TrimAll(Split(attribute, ',')))
  }

  /** An attribute without commas gives its trimmed text as the one item,
      or no item when that text is empty. */
  lemma ParsePiece(p: string)
    requires ',' !in p
    ensures ParseTypedItems(p) == if Trim(p) == "" then [] else [Trim(p)]
  {
    SplitWithoutSeparator(p, ',');
    assert TrimAll([p]) == [Trim(p)];
    DropEmptySingle(Trim(p));
  }

  /** The items are read piece by piece, in order: the items of the text
      before the first comma come first, followed by those of the rest. */
  lemma ParsedItemsArePieces(p: string, t: string)
    requires ',' !in p
    ensures ParseTypedItems(p + [','] + t) == ParseTypedItems(p) + ParseTypedItems(t)
  {
    SplitAfterPiece(p, t, ',');
    SplitWithoutSeparator(p, ',');
    var rest := Split(t, ',');
    TrimAllAppend([p], rest);
    DropEmptyAppend(TrimAll([p]), TrimAll(rest));
  }

  /** The attribute as usually written, spaces around the commas included:
      pieces that each trim to a non-empty text are read back as those
      texts, in order. */
  lemma ParseJoinPadded(pieces: seq<string>)
    requires forall i | 0 <= i < |pieces| :: ',' !in pieces[i] && Trim(pieces[i]) != ""
    ensures ParseTypedItems(Join(pieces, ',')) == TrimAll(pieces)
  {
    if |pieces| == 0 {
      assert Join(pieces, ',') == "";
      ParseEmpty();
    } else {
      ParseJoinPaddedPieces(pieces);
    }
  }

  lemma ParseJoinPaddedPieces(pieces: seq<string>)
    requires 0 < |pieces|
    requires forall i | 0 <= i < |pieces| :: ',' !in pieces[i] && Trim(pieces[i]) != ""
    ensures ParseTypedItems(Join(pieces, ',')) == TrimAll(pieces)
  {
    var attribute := Join(pieces, ',');
    SplitJoin(pieces, ',');
    DropEmptyNonEmpty(TrimAll(pieces));
    assert ParseTypedItems(attribute) == DropEmpty(TrimAll(Split(attribute, ',')));
  }

  /** The trimmed pieces of a split at commas are trimmed and comma-free. */
  lemma TrimmedPiecesCommaFree(attribute: string)
    ensures var trimmed := TrimAll(Split(attribute, ','));
            forall i | 0 <= i < |trimmed| :: IsTrimmed(trimmed[i]) && ',' !in trimmed[i]
  {
    var pieces := Split(attribute, ',');
    var trimmed := TrimAll(pieces);
    forall i | 0 <= i < |trimmed|
      ensures IsTrimmed(trimmed[i]) && ',' !in trimmed[i]
    {
      TrimKeepsOut(pieces[i], ',');
    }
  }

  /** Writing non-empty, trimmed, comma-free items into the attribute
      separated by commas reads them back unchanged and in order. */
  lemma ParseJoin(items: seq<string>)
    requires forall i | 0 <= i < |items| :: items[i] != "" && IsTrimmed(items[i]) && ',' !in items[i]
    ensures ParseTypedItems(Join(items, ',')) == items
  {
    if |items| == 0 {
      assert Join(items, ',') == "";
      ParseEmpty();
    } else {
      ParseJoinPieces(items);
    }
  }

  lemma ParseJoinPieces(items: seq<string>)
    requires 0 < |items|
    requires forall i | 0 <= i < |items| :: items[i] != "" && IsTrimmed(items[i]) && ',' !in items[i]
    ensures ParseTypedItems(Join(items, ',')) == items
  {
    var attribute := Join(items, ',');
    SplitJoin(items, ',');
    TrimAllTrimmed(items);
    DropEmptyNonEmpty(items);
    assert ParseTypedItems(attribute) == DropEmpty(TrimAll(Split(attribute, ',')));
  }

  /** Dropping empty pieces from a list without any leaves it as it is. */
  lemma DropEmptyNonEmpty(parts: seq<string>)
    requires forall i | 0 <= i < |parts| :: parts[i] != ""
    ensures DropEmpty(parts) == parts
  {
  }

  /** An empty attribute gives no items. */
  lemma ParseEmpty()
    ensures ParseTypedItems("") == []
  {
    assert Split("", ',') == [""];
    assert Trim("") == "";
    assert TrimAll([""]) == [""];
    assert DropEmpty([""]) == [];
  }

  /** Trimming pieces that are already trimmed changes none of them. */
  lemma TrimAllTrimmed(parts: seq<string>)
    requires forall i | 0 <= i < |parts| :: IsTrimmed(parts[i])
    ensures TrimAll(parts) == parts
  {
    forall i | 0 <= i < |parts|
      ensures Trim(parts[i]) == parts[i]
    {
      TrimTrimmed(parts[i]);
    }
  }

  /** The deferred initializer: a missing attribute reads as "", so no
      typing effect is built for it; for a present one the effect is built,
      with the parsed list, exactly when that list is not empty. */
  function TypedStrings(attribute: Option<string>): (strings: Option<seq<string>>)
    ensures attribute.None? ==> strings.None?
    ensures attribute.Some? ==> (strings.None? <==> ParseTypedItems(attribute.value) == [])
    ensures strings.Some? ==> attribute.Some? && strings.value == ParseTypedItems(attribute.value) && strings.value != []
  {
    ParseEmpty();
    var items := ParseTypedItems(if attribute.Some? then attribute.value else "");
    if |items| > 0 then Some(items) else None
  }
}
