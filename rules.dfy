/** The rule text of a test case: several rules separated by `;`, each a chain of
    `→`-separated clauses, where a clause that mentions `rdf:type` names a class. */
module RuleText {
  import opened Text

  const RuleSeparator: char := ';'
  const Arrow: char := '\U{2192}'
  const TypeMarker: string := "rdf:type"

  /** The parts that are not blank once trimmed, trimmed, in order. */
  function KeptParts(parts: seq<string>): seq<string>
  {
    if parts == [] then []
    else
      var body := Trim(parts[|parts| - 1]);
      KeptParts(parts[..|parts| - 1]) + (if body != [] then [body] else [])
  }

  /** The rule bodies one rule field registers: `part.strip()` for every part of
      `text.split(';')` that is not empty after stripping. */
  function RuleBodies(text: string): seq<string>
  {
    KeptParts(Split(text, RuleSeparator))
  }

  /** `'rdf:type' in segment` */
  predicate HasMarker(segment: string)
  {
    Contains(segment, TypeMarker)
  }

  /** `segment.split('rdf:type')[1].strip()`: the class a clause names. */
  function MarkerLabel(segment: string): (r: string)
    requires HasMarker(segment)
    ensures Stripped(r) && !Contains(r, TypeMarker)
  {
    var piece := SecondPiece(segment, TypeMarker);
    TrimStripped(piece);
    TrimKeepsPatternOut(piece, TypeMarker);
    Trim(piece)
  }

  /** With one `rdf:type`, the label is the text after it, stripped. */
  lemma MarkerLabelOf(a: string, b: string)
    requires FindSub(a + TypeMarker + b, TypeMarker) == Some(|a|)
    requires !Contains(b, TypeMarker)
    ensures HasMarker(a + TypeMarker + b) && MarkerLabel(a + TypeMarker + b) == Trim(b)
  {
    var s := a + TypeMarker + b;
    assert s[|a| + |TypeMarker|..] == b;
    assert FindSub(b, TypeMarker).None?;
    assert SecondPiece(s, TypeMarker) == b;
  }

  /** A second `rdf:type` ends the label: it is the text between the first two
      occurrences, stripped. */
  lemma MarkerLabelCut(a: string, b: string, c: string)
    requires FindSub(a + TypeMarker + b + TypeMarker + c, TypeMarker) == Some(|a|)
    requires FindSub(b + TypeMarker + c, TypeMarker) == Some(|b|)
    ensures HasMarker(a + TypeMarker + b + TypeMarker + c)
    ensures MarkerLabel(a + TypeMarker + b + TypeMarker + c) == Trim(b)
  {
    var s, rest := a + TypeMarker + b + TypeMarker + c, b + TypeMarker + c;
    Associative(a + TypeMarker, b, TypeMarker);
    Associative(a + TypeMarker, b + TypeMarker, c);
    assert s[|a| + |TypeMarker|..] == rest;
    assert rest[..|b|] == b;
    assert SecondPiece(s, TypeMarker) == b;
  }

  /** The classes named by a list of `→`-segments. */
  function SegmentClasses(segments: seq<string>): set<string>
  {
    if segments == [] then {}
    else
      var last := segments[|segments| - 1];
      SegmentClasses(segments[..|segments| - 1]) + (if HasMarker(last) then {MarkerLabel(last)} else {})
  }

  /** The classes named in a list of rule bodies. */
  function BodyClasses(bodies: seq<string>): set<string>
  {
    if bodies == [] then {}
    else BodyClasses(bodies[..|bodies| - 1]) + SegmentClasses(Split(bodies[|bodies| - 1], Arrow))
  }

  /** The classes of one more body are added to those of the bodies before it. */
  lemma BodyClassesAppend(bodies: seq<string>, body: string)
    ensures BodyClasses(bodies + [body]) == BodyClasses(bodies) + SegmentClasses(Split(body, Arrow))
  {
    assert (bodies + [body])[..|bodies|] == bodies;
  }

  /** The classes registering a rule field makes sure of. */
  function RuleClasses(text: string): set<string>
  {
    BodyClasses(RuleBodies(text))
  }

  /** Keeping parts works part by part: the kept parts of two lists are those of the
      first followed by those of the second. */
  lemma {:induction false} KeptPartsAppend(a: seq<string>, b: seq<string>)
    ensures KeptParts(a + b) == KeptParts(a) + KeptParts(b)
  {
    if b == [] {
      assert a + b == a;
    } else {
      var init := b[..|b| - 1];
      KeptPartsAppend(a, init);
      assert (a + b)[..|a + b| - 1] == a + init;
      assert (a + b)[|a + b| - 1] == b[|b| - 1];
      var last := Trim(b[|b| - 1]);
      Associative(KeptParts(a), KeptParts(init), if last != [] then [last] else []);
    }
  }

  /** Rules are registered in source order: the bodies of two rule fields joined by
      `;` are the bodies of the first followed by those of the second. */
  lemma RuleBodiesConcat(a: string, b: string)
    ensures RuleBodies(a + [RuleSeparator] + b) == RuleBodies(a) + RuleBodies(b)
  {
    SplitConcat(a, RuleSeparator, b);
    KeptPartsAppend(Split(a, RuleSeparator), Split(b, RuleSeparator));
  }

  /** Every registered body is non-empty and already stripped. */
  lemma {:induction false} KeptPartsClean(parts: seq<string>)
    ensures forall k :: 0 <= k < |KeptParts(parts)| ==>
      KeptParts(parts)[k] != [] && Trim(KeptParts(parts)[k]) == KeptParts(parts)[k]
  {
    if parts != [] {
      KeptPartsClean(parts[..|parts| - 1]);
      TrimIdempotent(parts[|parts| - 1]);
    }
  }

  /** At most one rule per `;`-separated part. */
  lemma {:induction false} KeptPartsBound(parts: seq<string>)
    ensures |KeptParts(parts)| <= |parts|
  {
    if parts != [] {
      KeptPartsBound(parts[..|parts| - 1]);
    }
  }

  /** `p.strip()` is empty: every character of `p` is whitespace. */
  predicate Blank(p: string)
  {
    forall i :: 0 <= i < |p| ==> IsSpace(p[i])
  }

  /** Blank parts register nothing. */
  lemma {:induction false} KeptPartsBlank(parts: seq<string>)
    requires forall k :: 0 <= k < |parts| ==> Blank(parts[k])
    ensures KeptParts(parts) == []
  {
    if parts != [] {
      var last := parts[|parts| - 1];
      KeptPartsBlank(parts[..|parts| - 1]);
      assert Blank(last);
      StripLeftPadding(last, [], Whitespace);
      assert last + [] == last;
    }
  }

  /** Splitting text made of whitespace and separators gives blank pieces. */
  lemma {:induction false} SplitBlank(s: string)
    requires forall i :: 0 <= i < |s| ==> IsSpace(s[i]) || s[i] == RuleSeparator
    ensures forall k :: 0 <= k < |Split(s, RuleSeparator)| ==> Blank(Split(s, RuleSeparator)[k])
  {
    if s != [] {
      assert forall i :: 0 <= i < |s[1..]| ==> s[1..][i] == s[i + 1];
      SplitBlank(s[1..]);
      var rest, parts := Split(s[1..], RuleSeparator), Split(s, RuleSeparator);
      forall k | 0 <= k < |parts| ensures Blank(parts[k]) {
        if s[0] == RuleSeparator {
          assert parts[k] == (if k == 0 then [] else rest[k - 1]);
        } else if k == 0 {
          assert parts[0] == [s[0]] + rest[0];
          BlankPrepend(s[0], rest[0]);
        } else {
          assert parts[k] == rest[k];
        }
      }
    }
  }

  /** A blank in front of a blank part leaves it blank. */
  lemma BlankPrepend(c: char, p: string)
    requires IsSpace(c) && Blank(p)
    ensures Blank([c] + p)
  {
    assert forall i :: 0 < i <= |p| ==> ([c] + p)[i] == p[i - 1];
  }

  /** A rule field of only whitespace and semicolons registers no rule. */
  lemma RuleBodiesBlank(text: string)
    requires forall i :: 0 <= i < |text| ==> IsSpace(text[i]) || text[i] == RuleSeparator
    ensures RuleBodies(text) == []
  {
    SplitBlank(text);
    KeptPartsBlank(Split(text, RuleSeparator));
  }

  /** A name is among the classes of some segments exactly when one of those
      segments mentions `rdf:type` and names it. */
  lemma {:induction false} SegmentClassesMember(segments: seq<string>, name: string)
    ensures name in SegmentClasses(segments) <==>
      exists g :: g in segments && HasMarker(g) && MarkerLabel(g) == name
  {
    if segments != [] {
      var init, last := segments[..|segments| - 1], segments[|segments| - 1];
      SegmentClassesMember(init, name);
      assert segments == init + [last];
      assert forall g :: g in segments <==> g in init || g == last;
    }
  }

  /** Some `→`-segment of `body` mentions `rdf:type` and names `name`. */
  predicate NamesClass(body: string, name: string)
  {
    exists g :: g in Split(body, Arrow) && HasMarker(g) && MarkerLabel(g) == name
  }

  /** A body names a class exactly when the class is among its segments' classes. */
  lemma NamesClassSegments(body: string, name: string)
    ensures NamesClass(body, name) <==> name in SegmentClasses(Split(body, Arrow))
  {
    SegmentClassesMember(Split(body, Arrow), name);
  }

  /** A name is among the classes of some bodies exactly when one of those bodies
      names it in one of its `→`-segments. */
  lemma {:induction false} BodyClassesMember(bodies: seq<string>, name: string)
    ensures name in BodyClasses(bodies) <==> exists b :: b in bodies && NamesClass(b, name)
  {
    if bodies != [] {
      var init, last := bodies[..|bodies| - 1], bodies[|bodies| - 1];
      BodyClassesMember(init, name);
      NamesClassSegments(last, name);
      assert bodies == init + [last];
      if name in BodyClasses(bodies) {
        if name in BodyClasses(init) {
          var b :| b in init && NamesClass(b, name);
          assert b in bodies;
        } else {
          assert NamesClass(last, name);
          assert last in bodies;
        }
      }
      if exists b :: b in bodies && NamesClass(b, name) {
        var b :| b in bodies && NamesClass(b, name);
        if b != last {
          assert b in init;
        }
      }
    }
  }

  /** After a rule field is registered, the classes ensured are exactly the labels
      that follow `rdf:type` in the `→`-segments of its rule bodies. */
  lemma RuleClassesMember(text: string, name: string)
    ensures name in RuleClasses(text) <==> exists b :: b in RuleBodies(text) && NamesClass(b, name)
  {
    BodyClassesMember(RuleBodies(text), name);
  }
}
