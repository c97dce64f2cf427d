/**
 Tag extraction from a photo's alt text: an empty text has no tags; otherwise the
 text is split on "," when it has one and on " " when it has none, every segment
 is trimmed, and the empty ones are dropped.
 */
module Tags {

  /**
   The characters String.prototype.trim removes: the ECMAScript WhiteSpace
   characters (tab, vertical tab, form feed, space, no-break space, zero-width
   no-break space and the Unicode space separators) and LineTerminators.
   */
  predicate IsWhitespace(c: char)
  {
    // tab, line feed, vertical tab, form feed, carriage return; space; no-break space
    ('\U{0009}' <= c <= '\U{000D}') || c == '\U{0020}' || c == '\U{00A0}'
    // ogham space mark, the spaces U+2000..U+200A
    || c == '\U{1680}' || ('\U{2000}' <= c <= '\U{200A}')
    // line separator, paragraph separator
    || c == '\U{2028}' || c == '\U{2029}'
    // narrow no-break space, medium mathematical space, ideographic space, zero-width no-break space
    || c == '\U{202F}' || c == '\U{205F}' || c == '\U{3000}' || c == '\U{FEFF}'
  }

  /** No whitespace at either end. */
  predicate IsTrimmed(s: string)
  {
    s == [] || (!IsWhitespace(s[0]) && !IsWhitespace(s[|s| - 1]))
  }

  predicate AllWhitespace(s: string)
  {
    forall k :: 0 <= k < |s| ==> IsWhitespace(s[k])
  }

  /** s without its leading whitespace. */
  function TrimStart(s: string): (r: string)
    ensures |r| <= |s| && r == s[|s| - |r|..]
    ensures AllWhitespace(s[..|s| - |r|])
    ensures r == [] || !IsWhitespace(r[0])
  {
    if s != [] && IsWhitespace(s[0]) then TrimStart(s[1..]) else s
  }

  /** s without its trailing whitespace. */
  function TrimEnd(s: string): (r: string)
    ensures |r| <= |s| && r == s[..|r|]
    ensures AllWhitespace(s[|r|..])
    ensures r == [] || !IsWhitespace(r[|r| - 1])
  {
    if s != [] && IsWhitespace(s[|s| - 1]) then TrimEnd(s[..|s| - 1]) else s
  }

  /** String.prototype.trim: whitespace removed from both ends. */
  function Trim(s: string): (r: string)
    ensures IsTrimmed(r)
  {
    TrimEnd(TrimStart(s))
  }

  /** The trimmed text is the slice of s between a whitespace-only prefix and a whitespace-only suffix. */
  lemma TrimIsSlice(s: string) returns (i: nat, j: nat)
    ensures i <= j <= |s| && Trim(s) == s[i..j]
    ensures AllWhitespace(s[..i]) && AllWhitespace(s[j..])
  {
    var t := TrimStart(s);
    var r := TrimEnd(t);
    i := |s| - |t|;
    j := i + |r|;
    assert r == s[i..j];
    assert s[j..] == t[|r|..];
  }

  /** String.prototype.split with a one-character separator: the pieces between occurrences of sep, in order. */
  function Split(s: string, sep: char): (r: seq<string>)
    ensures |r| >= 1
    ensures forall i :: 0 <= i < |r| ==> sep !in r[i]
  {
    if s == [] then [""]
    else
      var rest := Split(s[1..], sep);
      if s[0] == sep then [""] + rest else [[s[0]] + rest[0]] + rest[1..]
  }

  /** Array.prototype.join with a one-character separator. */
  function Join(parts: seq<string>, sep: char): string
    requires |parts| >= 1
  {
    if |parts| == 1 then parts[0] else parts[0] + [sep] + Join(parts[1..], sep)
  }

  /** Trim every segment and keep the non-empty ones, in order. */
  function Clean(parts: seq<string>): (r: seq<string>)
    ensures |r| <= |parts|
    ensures forall i :: 0 <= i < |r| ==> r[i] != [] && IsTrimmed(r[i])
  {
    if parts == [] then []
    else
      var t := Trim(parts[0]);
      (if t == [] then [] else [t]) + Clean(parts[1..])
  }

  /** The separator extractTags cuts on: a comma if the text has one, else a space. */
  function Separator(alt: string): (sep: char)
    ensures sep == ',' <==> ',' in alt
    ensures sep == ',' || sep == ' '
  {
    if ',' in alt then ',' else ' '
  }

  /** extractTags: every tag is non-empty and has no whitespace at either end. */
  function ExtractTags(alt: string): (tags: seq<string>)
    ensures alt == [] ==> tags == []
    ensures forall i :: 0 <= i < |tags| ==> tags[i] != [] && IsTrimmed(tags[i])
  {
    if alt == [] then [] else Clean(Split(alt, Separator(alt)))
  }

  /** No tag holds the separator it was cut on, and a comma never survives in either mode. */
  lemma TagsLackSeparator(alt: string)
    ensures forall i :: 0 <= i < |ExtractTags(alt)| ==> Separator(alt) !in ExtractTags(alt)[i]
    ensures forall i :: 0 <= i < |ExtractTags(alt)| ==> ',' !in ExtractTags(alt)[i]
  {
    if alt != [] {
      var sep := Separator(alt);
      CleanNoSeparator(Split(alt, sep), sep);
      if sep == ' ' {
        SplitKeepsOut(alt, ' ', ',');
        CleanNoSeparator(Split(alt, sep), ',');
      }
    }
  }

  // ---------------------------------------------------------------------------
  // Lemmas
  // ---------------------------------------------------------------------------

  /** A slice of a string without c has no c. */
  lemma SliceKeepsOut(s: string, i: nat, j: nat, c: char)
    requires i <= j <= |s| && c !in s
    ensures c !in s[i..j]
  {
  }

  /** Trimming cannot add a character. */
  lemma TrimKeepsOut(s: string, c: char)
    requires c !in s
    ensures c !in Trim(s)
  {
    var i, j := TrimIsSlice(s);
    SliceKeepsOut(s, i, j, c);
  }

  /** Cleaning segments that lack c gives tags that lack c. */
  lemma CleanNoSeparator(parts: seq<string>, c: char)
    requires forall i :: 0 <= i < |parts| ==> c !in parts[i]
    ensures forall i :: 0 <= i < |Clean(parts)| ==> c !in Clean(parts)[i]
  {
    CleanMembers(parts);
    forall i | 0 <= i < |Clean(parts)|
      ensures c !in Clean(parts)[i]
    {
      var t := Clean(parts)[i];
      assert IsSegmentTrim(t, parts);
      var j :| 0 <= j < |parts| && t == Trim(parts[j]);
      TrimKeepsOut(parts[j], c);
    }
  }

  /** A character missing from the text is missing from every segment. */
  lemma {:induction false} SplitKeepsOut(s: string, sep: char, c: char)
    requires c !in s
    ensures forall i :: 0 <= i < |Split(s, sep)| ==> c !in Split(s, sep)[i]
    decreases |s|
  {
    if s != [] {
      SplitKeepsOut(s[1..], sep, c);
    }
  }

  /** Joining the segments with the separator gives back the text: the segments are exactly the pieces between separators, in order. */
  lemma {:induction false} JoinSplit(s: string, sep: char)
    ensures Join(Split(s, sep), sep) == s
    decreases |s|
  {
    if s != [] {
      var rest := Split(s[1..], sep);
      JoinSplit(s[1..], sep);
      if s[0] == sep {
        assert Split(s, sep) == [""] + rest;
        assert ([""] + rest)[1..] == rest;
      } else {
        var parts := [[s[0]] + rest[0]] + rest[1..];
        assert Split(s, sep) == parts;
        if |rest| == 1 {
          assert Join(parts, sep) == [s[0]] + rest[0];
        } else {
          assert parts[1..] == rest[1..];
          assert Join(rest, sep) == rest[0] + [sep] + Join(rest[1..], sep);
        }
      }
      assert s == [s[0]] + s[1..];
    }
  }

  /** Splitting segments joined by a separator they do not contain gives the segments back. */
  lemma {:induction false} SplitJoin(parts: seq<string>, sep: char)
    requires |parts| >= 1
    requires forall i :: 0 <= i < |parts| ==> sep !in parts[i]
    ensures Split(Join(parts, sep), sep) == parts
    decreases |parts|, |parts[0]|
  {
    if |parts| == 1 {
      SplitNoSeparator(parts[0], sep);
    } else if parts[0] == [] {
      var rest := Join(parts[1..], sep);
      assert Join(parts, sep) == [sep] + rest;
      assert ([sep] + rest)[1..] == rest;
      SplitJoin(parts[1..], sep);
      assert parts == [""] + parts[1..];
    } else {
      var first := parts[0];
      var shorter := [first[1..]] + parts[1..];
      assert Join(parts, sep) == [first[0]] + Join(shorter, sep) by {
        assert Join(shorter, sep) == first[1..] + [sep] + Join(parts[1..], sep);
        assert first == [first[0]] + first[1..];
      }
      assert forall i :: 0 <= i < |shorter| ==> sep !in shorter[i] by {
        assert sep !in first;
        SliceKeepsOut(first, 1, |first|, sep);
      }
      SplitJoin(shorter, sep);
      assert first[0] != sep;
      assert ([first[0]] + Join(shorter, sep))[1..] == Join(shorter, sep);
      assert shorter[0] == first[1..] && shorter[1..] == parts[1..];
      assert [first[0]] + first[1..] == first;
      assert parts == [[first[0]] + shorter[0]] + shorter[1..];
    }
  }

  /** A text without the separator is one segment. */
  lemma {:induction false} SplitNoSeparator(s: string, sep: char)
    requires sep !in s
    ensures Split(s, sep) == [s]
    decreases |s|
  {
    if s != [] {
      assert sep !in s[1..] by { SliceKeepsOut(s, 1, |s|, sep); }
      SplitNoSeparator(s[1..], sep);
      assert s == [s[0]] + s[1..];
    }
  }

  /** Cleaning a concatenation cleans each part, in order. */
  lemma {:induction false} CleanAppend(a: seq<string>, b: seq<string>)
    ensures Clean(a + b) == Clean(a) + Clean(b)
    decreases |a|
  {
    if a != [] {
      assert (a + b)[0] == a[0];
      assert (a + b)[1..] == a[1..] + b;
      CleanAppend(a[1..], b);
    } else {
      assert a + b == b;
    }
  }

  /** One segment cleans to its trim, or to nothing when the trim is empty. */
  lemma CleanSingle(s: string)
    ensures Clean([s]) == if Trim(s) == [] then [] else [Trim(s)]
  {
    assert [s][1..] == [];
  }

  /** t is the non-empty trim of one of the segments. */
  predicate IsSegmentTrim(t: string, parts: seq<string>)
  {
    t != [] && exists i :: 0 <= i < |parts| && t == Trim(parts[i])
  }

  /** The tags kept are exactly the non-empty trims of the segments. */
  lemma {:induction false} CleanMembers(parts: seq<string>)
    ensures forall t :: t in Clean(parts) <==> IsSegmentTrim(t, parts)
    decreases |parts|
  {
    if parts != [] {
      CleanMembers(parts[1..]);
      forall t
        ensures t in Clean(parts) <==> IsSegmentTrim(t, parts)
      {
        CleanMembersStep(parts, t);
      }
    }
  }

  /** The inductive step of CleanMembers for one candidate tag. */
  lemma CleanMembersStep(parts: seq<string>, t: string)
    requires parts != []
    requires t in Clean(parts[1..]) <==> IsSegmentTrim(t, parts[1..])
    ensures t in Clean(parts) <==> IsSegmentTrim(t, parts)
  {
    CleanFirst(parts);
    if t in Clean(parts[1..]) {
      SegmentTrimOfRest(parts, t);
    }
    if IsSegmentTrim(t, parts) && t != Trim(parts[0]) {
      SegmentTrimInRest(parts, t);
    }
  }

  /** Cleaning a non-empty list: the first segment's trim, if any, then the rest cleaned. */
  lemma CleanFirst(parts: seq<string>)
    requires parts != []
    ensures Clean(parts) == (if Trim(parts[0]) == [] then [] else [Trim(parts[0])]) + Clean(parts[1..])
  {
  }

  /** A trim of a later segment is a trim of a segment of the whole list. */
  lemma SegmentTrimOfRest(parts: seq<string>, t: string)
    requires parts != [] && IsSegmentTrim(t, parts[1..])
    ensures IsSegmentTrim(t, parts)
  {
    var i :| 0 <= i < |parts[1..]| && t == Trim(parts[1..][i]);
    assert t == Trim(parts[i + 1]);
  }

  /** A segment trim that is not the first segment's is the trim of a later one. */
  lemma SegmentTrimInRest(parts: seq<string>, t: string)
    requires parts != [] && IsSegmentTrim(t, parts) && t != Trim(parts[0])
    ensures IsSegmentTrim(t, parts[1..])
  {
    var i :| 0 <= i < |parts| && t == Trim(parts[i]);
    assert i != 0;
    var rest := parts[1..];
    assert rest[i - 1] == parts[i];
    assert 0 <= i - 1 < |rest| && t == Trim(rest[i - 1]);
  }

  /** Trimming a whitespace-only segment leaves nothing. */
  lemma TrimAllWhitespace(s: string)
    requires AllWhitespace(s)
    ensures Trim(s) == []
  {
    var i, j := TrimIsSlice(s);
  }

  /** A text of separators and whitespace only has no tags. */
  lemma OnlySeparatorsAndWhitespace(alt: string)
    requires forall k :: 0 <= k < |alt| ==> alt[k] == ',' || IsWhitespace(alt[k])
    ensures ExtractTags(alt) == []
  {
    if alt != [] {
      SegmentsOfBlank(alt, Separator(alt));
      CleanBlank(Split(alt, Separator(alt)));
    }
  }

  /** Removing the separators from a text of separators and whitespace leaves whitespace-only segments. */
  lemma {:induction false} SegmentsOfBlank(s: string, sep: char)
    requires forall k :: 0 <= k < |s| ==> s[k] == sep || IsWhitespace(s[k])
    ensures forall i :: 0 <= i < |Split(s, sep)| ==> AllWhitespace(Split(s, sep)[i])
    decreases |s|
  {
    if s != [] {
      SegmentsOfBlank(s[1..], sep);
      var rest := Split(s[1..], sep);
      if s[0] != sep {
        assert AllWhitespace([s[0]] + rest[0]) by {
          assert forall k :: 0 <= k < |rest[0]| ==> ([s[0]] + rest[0])[k + 1] == rest[0][k];
        }
      }
    }
  }

  /** Whitespace-only segments clean to nothing. */
  lemma {:induction false} CleanBlank(parts: seq<string>)
    requires forall i :: 0 <= i < |parts| ==> AllWhitespace(parts[i])
    ensures Clean(parts) == []
  {
    if parts != [] {
      TrimAllWhitespace(parts[0]);
      CleanBlank(parts[1..]);
    }
  }

  /** A text with no whitespace at either end trims to itself. */
  lemma TrimTrimmed(s: string)
    requires IsTrimmed(s)
    ensures Trim(s) == s
  {
  }

  /** Segments that are already clean survive cleaning unchanged. */
  lemma {:induction false} CleanClean(parts: seq<string>)
    requires forall i :: 0 <= i < |parts| ==> parts[i] != [] && Trim(parts[i]) == parts[i]
    ensures Clean(parts) == parts
  {
    if parts != [] {
      CleanClean(parts[1..]);
      assert Clean(parts) == [parts[0]] + Clean(parts[1..]);
    }
  }

  /**
   Tags written back as a comma-separated caption are extracted again unchanged,
   as long as there are at least two of them (a single tag has no comma and would
   be cut on spaces) and none of them holds a comma or edge whitespace.
   */
  lemma CommaJoinedTags(tags: seq<string>)
    requires |tags| >= 2
    requires forall i :: 0 <= i < |tags| ==> tags[i] != [] && IsTrimmed(tags[i]) && ',' !in tags[i]
    ensures ExtractTags(Join(tags, ',')) == tags
  {
    var alt := Join(tags, ',');
    assert Separator(alt) == ',' by {
      assert alt == tags[0] + [','] + Join(tags[1..], ',');
      assert alt[|tags[0]|] == ',';
    }
    assert Split(alt, ',') == tags by {
      SplitJoin(tags, ',');
    }
    assert Clean(tags) == tags by {
      forall i | 0 <= i < |tags|
        ensures Trim(tags[i]) == tags[i]
      {
        TrimTrimmed(tags[i]);
      }
      CleanClean(tags);
    }
  }

  /** A character that is neither the separator nor in any part is not in their join. */
  lemma {:induction false} JoinKeepsOut(parts: seq<string>, sep: char, c: char)
    requires |parts| >= 1 && c != sep
    requires forall i :: 0 <= i < |parts| ==> c !in parts[i]
    ensures c !in Join(parts, sep)
  {
    if |parts| > 1 {
      JoinKeepsOut(parts[1..], sep, c);
    }
  }

  /**
   Tags free of commas and spaces written back as a space-separated caption are
   extracted again unchanged: with no comma in the caption it is cut on spaces.
   */
  lemma SpaceJoinedTags(tags: seq<string>)
    requires |tags| >= 1
    requires forall i :: 0 <= i < |tags| ==> tags[i] != [] && IsTrimmed(tags[i]) && ',' !in tags[i] && ' ' !in tags[i]
    ensures ExtractTags(Join(tags, ' ')) == tags
  {
    var alt := Join(tags, ' ');
    assert alt != [] by {
      assert |Join(tags, ' ')| >= |tags[0]|;
    }
    assert Separator(alt) == ' ' by {
      JoinKeepsOut(tags, ' ', ',');
    }
    assert Split(alt, ' ') == tags by {
      SplitJoin(tags, ' ');
    }
    assert Clean(tags) == tags by {
      forall i | 0 <= i < |tags|
        ensures Trim(tags[i]) == tags[i]
      {
        TrimTrimmed(tags[i]);
      }
      CleanClean(tags);
    }
  }
}
