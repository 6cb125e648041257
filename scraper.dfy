/** The field extraction of the single-document spider (scraper.py): the
    label-based cleaner used for the simple fields, the two scans over the
    text fragments of the "Descripción:" paragraph, and the assembly of one
    record from a fetched page. The batch spider (test/batch_spider.py)
    carries verbatim copies of the three extractors and uses these. */
module Scraper {
  import opened Strings
  import opened Records

  const DESCRIPCION := "Descripción:"
  const NOTAS_MARKER := "NOTAS"

  /** Neither marker can overlap with itself. */
  lemma {:induction false} MarkersOverlapFree()
    ensures SelfOverlapFree(DESCRIPCION) && SelfOverlapFree(NOTAS_MARKER)
  {
    FirstCharUnique(DESCRIPCION);
    FirstCharUnique(NOTAS_MARKER);
  }

  // ---------------------------------------------------------------------
  // clean_field_content

  /** `' '.join([text.strip() for text in field_data if text.strip()])`. */
  function JoinedText(fragments: seq<string>): string {
    Join(StrippedNonEmpty(fragments), " ")
  }

  /** The joined text is already stripped, and empty exactly when every
      fragment is blank. */
  lemma {:induction false} JoinedTextTrimmed(fragments: seq<string>)
    ensures JoinedText(fragments) == [] || Trimmed(JoinedText(fragments))
    ensures JoinedText(fragments) == [] <==> forall k :: 0 <= k < |fragments| ==> Strip(fragments[k]) == []
  {
    JoinTrimmed(StrippedNonEmpty(fragments));
    StrippedNonEmptyEmpty(fragments);
  }

  /** `clean_field_content(field_data, field_name)`. The label must not be
      empty: Python's `split('')` raises, and the callers pass fixed labels. */
  function CleanFieldContent(fragments: seq<string>, fieldName: string): (r: Option<string>)
    requires fieldName != []
    ensures fragments == [] ==> r == None
    ensures r.Some? ==> Trimmed(r.value) && !Contains(r.value, fieldName)
    ensures !Contains(JoinedText(fragments), fieldName) ==>
      r == if JoinedText(fragments) == [] then None else Some(JoinedText(fragments))
  {
    if fragments == [] then None
    else
      var fullText := JoinedText(fragments);
      if Contains(fullText, fieldName) then
        var content := Strip(SplitLast(fullText, fieldName));
        var value := Strip(LStripChar(content, ':'));
        assert !Contains(value, fieldName) by {
          SplitLastSpec(fullText, fieldName);
          StripKeepsOut(SplitLast(fullText, fieldName), fieldName);
          LStripCharKeepsOut(content, ':', fieldName);
          StripKeepsOut(LStripChar(content, ':'), fieldName);
        }
        if value != [] then Some(value) else None
      else
        JoinedTextTrimmed(fragments);
        StripTrimmed(fullText);
        if fullText != [] then Some(Strip(fullText)) else None
  }

  /** The usual shape "<fieldName>: <value>": whatever text precedes the last
      fieldName, the value behind it comes out with the separating whitespace
      and colons removed. */
  lemma {:induction false} CleanFieldLabelled(fragments: seq<string>, fieldName: string,
                           before: string, w1: string, colons: string, w2: string, value: string)
    requires fieldName != [] && SelfOverlapFree(fieldName)
    requires forall k :: 0 <= k < |w1| ==> IsSpace(w1[k])
    requires forall k :: 0 <= k < |colons| ==> colons[k] == ':'
    requires forall k :: 0 <= k < |w2| ==> IsSpace(w2[k])
    requires Trimmed(value) && value[0] != ':'
    requires !Contains(w1 + colons + w2 + value, fieldName)
    requires JoinedText(fragments) == before + fieldName + (w1 + colons + w2 + value)
    ensures CleanFieldContent(fragments, fieldName) == Some(value)
  {
    var rest := w1 + colons + w2 + value;
    CleanFieldAfterLabel(fragments, fieldName, before, rest);
    LabelSeparatorStripped(w1, colons, w2, value);
  }

  /** With the last label found, the result is read off the text after it. */
  lemma {:induction false} CleanFieldAfterLabel(fragments: seq<string>, fieldName: string, before: string, rest: string)
    requires fieldName != [] && SelfOverlapFree(fieldName)
    requires !Contains(rest, fieldName)
    requires JoinedText(fragments) == before + fieldName + rest
    ensures CleanFieldContent(fragments, fieldName) ==
      var v := Strip(LStripChar(Strip(rest), ':'));
      if v != [] then Some(v) else None
  {
    ContainsMiddle(before, fieldName, rest);
    assert fragments != [];
    SplitLastOf(before, fieldName, rest);
  }

  /** Whitespace, colons and whitespace between label and value go away. */
  lemma {:induction false} LabelSeparatorStripped(w1: string, colons: string, w2: string, value: string)
    requires forall k :: 0 <= k < |w1| ==> IsSpace(w1[k])
    requires forall k :: 0 <= k < |colons| ==> colons[k] == ':'
    requires forall k :: 0 <= k < |w2| ==> IsSpace(w2[k])
    requires Trimmed(value) && value[0] != ':'
    ensures Strip(LStripChar(Strip(w1 + colons + w2 + value), ':')) == value
  {
    if colons == [] {
      SpacedStrip(w1 + w2, value);
      assert w1 + colons + w2 + value == (w1 + w2) + value;
      LStripCharTrimmed(value, ':');
    } else {
      ColonsStrip(w1, colons, w2, value);
      assert colons + w2 + value == colons + (w2 + value);
      LStripCharPrefix(colons, ':', w2 + value);
      if w2 == [] {
        assert w2 + value == value;
        LStripCharTrimmed(value, ':');
      } else {
        assert (w2 + value)[0] == w2[0];
        LStripCharTrimmed(w2 + value, ':');
      }
      SpacedStrip(w2, value);
    }
  }

  /** Leading whitespace before a stripped value. */
  lemma {:induction false} SpacedStrip(w: string, value: string)
    requires forall k :: 0 <= k < |w| ==> IsSpace(w[k])
    requires Trimmed(value)
    ensures Strip(w + value) == value
  {
    assert LStrip(value) == value;
    LStripSpacePrefix(w, value);
    RStripTrimmedTail([], value);
  }

  /** `Strip` stops at the first colon. */
  lemma {:induction false} ColonsStrip(w1: string, colons: string, w2: string, value: string)
    requires forall k :: 0 <= k < |w1| ==> IsSpace(w1[k])
    requires colons != [] && colons[0] == ':'
    requires Trimmed(value)
    ensures Strip(w1 + colons + w2 + value) == colons + w2 + value
  {
    assert w1 + colons + w2 + value == w1 + (colons + w2 + value);
    LStripSpacePrefix(w1, colons + w2 + value);
    RStripTrimmedTail(colons + w2, value);
  }

  /** A value not starting with `c` loses nothing to `LStripChar`. */
  lemma {:induction false} LStripCharTrimmed(value: string, c: char)
    requires value != [] && value[0] != c
    ensures LStripChar(value, c) == value
  {
  }

  // ---------------------------------------------------------------------
  // Both scans finish the same way.

  /** `' '.join(parts).strip()`, then `None` for the empty string. */
  function Finish(parts: seq<string>): Option<string> {
    var full := Strip(Join(parts, " "));
    if full != [] then Some(full) else None
  }

  /** On trimmed parts, `Finish` gives the parts joined by single spaces,
      and `None` exactly when there are none. */
  lemma {:induction false} FinishTrimmed(parts: seq<string>)
    requires AllTrimmed(parts)
    ensures Finish(parts) == if parts == [] then None else Some(Join(parts, " "))
    ensures Finish(parts).Some? ==> Trimmed(Finish(parts).value)
  {
    JoinTrimmed(parts);
    StripTrimmed(Join(parts, " "));
  }

  /** Two trimmed parts finish as themselves around one space. */
  lemma {:induction false} FinishPair(a: string, b: string)
    requires Trimmed(a) && Trimmed(b)
    ensures Finish([a, b]) == Some(a + " " + b)
  {
    FinishTrimmed([a, b]);
    assert [a, b][1..] == [b];
  }

  // ---------------------------------------------------------------------
  // extract_document_content

  /** What a fragment holding `marker` contributes: the text after its
      last `marker`, stripped, unless that is empty. */
  function AfterMarker(t: string, marker: string): (r: seq<string>)
    requires marker != []
    ensures |r| <= 1
  {
    var after := Strip(SplitLast(t, marker));
    if after != [] then [after] else []
  }

  lemma {:induction false} AfterMarkerTrimmed(t: string, marker: string)
    requires marker != []
    ensures AllTrimmed(AfterMarker(t, marker))
  {
  }

  /** The content loop as a function: what it has collected once it has
      gone through `frags`, starting from the parts `acc` and the flag
      `collecting`. A fragment with "NOTAS" (and no "Descripción:") ends
      the loop. */
  function ContentLoop(frags: seq<string>, acc: seq<string>, collecting: bool): seq<string>
    decreases |frags|
  {
    if frags == [] then acc
    else
      var t := Strip(frags[0]);
      if t == [] then ContentLoop(frags[1..], acc, collecting)
      else if Contains(t, DESCRIPCION) then ContentLoop(frags[1..], acc + AfterMarker(t, DESCRIPCION), true)
      else if Contains(t, NOTAS_MARKER) then acc
      else if collecting then ContentLoop(frags[1..], acc + [t], collecting)
      else ContentLoop(frags[1..], acc, collecting)
  }

  /** Field 6 of a record: the content of the description paragraph. */
  function ContentOf(fragments: seq<string>): Option<string> {
    Finish(ContentLoop(fragments, [], false))
  }

  /** Every collected part is stripped and non-empty. */
  lemma {:induction false} ContentLoopTrimmed(frags: seq<string>, acc: seq<string>, collecting: bool)
    requires AllTrimmed(acc)
    ensures AllTrimmed(ContentLoop(frags, acc, collecting))
    decreases |frags|
  {
    if frags != [] {
      var t := Strip(frags[0]);
      if t == [] {
        ContentLoopTrimmed(frags[1..], acc, collecting);
      } else if Contains(t, DESCRIPCION) {
        AfterMarkerTrimmed(t, DESCRIPCION);
        AllTrimmedConcat(acc, AfterMarker(t, DESCRIPCION));
        ContentLoopTrimmed(frags[1..], acc + AfterMarker(t, DESCRIPCION), true);
      } else if Contains(t, NOTAS_MARKER) {
      } else if collecting {
        AllTrimmedConcat(acc, [t]);
        ContentLoopTrimmed(frags[1..], acc + [t], collecting);
      } else {
        ContentLoopTrimmed(frags[1..], acc, collecting);
      }
    }
  }

  /** The content is stripped whenever there is one. */
  lemma {:induction false} ContentOfTrimmed(fragments: seq<string>)
    ensures ContentOf(fragments).Some? ==> Trimmed(ContentOf(fragments).value)
  {
    ContentLoopTrimmed(fragments, [], false);
    FinishTrimmed(ContentLoop(fragments, [], false));
  }

  /** `extract_document_content`, over the paragraph's text fragments. */
  method ExtractDocumentContent(fragments: seq<string>) returns (content: Option<string>)
    ensures content == ContentOf(fragments)
  {
    var contentParts: seq<string> := [];
    var collectingContent := false;
    var notesStarted := false;
    for i := 0 to |fragments|
      invariant !notesStarted
      invariant ContentLoop(fragments[i..], contentParts, collectingContent) == ContentLoop(fragments, [], false)
    {
      assert fragments[i..][0] == fragments[i] && fragments[i..][1..] == fragments[i + 1..];
      ghost var rest := ContentLoop(fragments[i..], contentParts, collectingContent);
      var cleanText := Strip(fragments[i]);
      if cleanText == [] {
        assert rest == ContentLoop(fragments[i + 1..], contentParts, collectingContent);
        continue;
      }
      if Contains(cleanText, DESCRIPCION) {
        ghost var piece := AfterMarker(cleanText, DESCRIPCION);
        assert rest == ContentLoop(fragments[i + 1..], contentParts + piece, true);
        collectingContent := true;
        cleanText := Strip(SplitLast(cleanText, DESCRIPCION));
        if cleanText != [] {
          assert piece == [cleanText];
          contentParts := contentParts + [cleanText];
        } else {
          assert contentParts + piece == contentParts;
        }
        continue;
      }
      if Contains(cleanText, NOTAS_MARKER) {
        notesStarted := true;
        assert rest == contentParts;
        break;
      }
      if collectingContent && !notesStarted {
        assert rest == ContentLoop(fragments[i + 1..], contentParts + [cleanText], collectingContent);
        contentParts := contentParts + [cleanText];
      } else {
        assert rest == ContentLoop(fragments[i + 1..], contentParts, collectingContent);
      }
    }
    content := Finish(contentParts);
  }

  /** The fragment holds the content marker. */
  predicate IsMarker(t: string) {
    Contains(Strip(t), DESCRIPCION)
  }

  /** The fragment ends the content scan: "NOTAS" without the content marker. */
  predicate IsStop(t: string) {
    !Contains(Strip(t), DESCRIPCION) && Contains(Strip(t), NOTAS_MARKER)
  }

  /** Index of the first fragment satisfying `IsMarker`, or `|frags|`. */
  function FirstMarker(frags: seq<string>): (k: nat)
    ensures k <= |frags|
    decreases |frags|
  {
    if frags == [] then 0
    else if IsMarker(frags[0]) then 0
    else 1 + FirstMarker(frags[1..])
  }

  /** Index of the first fragment satisfying `IsStop`, or `|frags|`. */
  function FirstStop(frags: seq<string>): (k: nat)
    ensures k <= |frags|
    decreases |frags|
  {
    if frags == [] then 0
    else if IsStop(frags[0]) then 0
    else 1 + FirstStop(frags[1..])
  }

  /** What one fragment inside the collected run adds to the content: the
      text after the last marker for a marker fragment, else the fragment
      stripped; blank results add nothing. */
  function ContentPiece(t: string): seq<string> {
    var c := Strip(t);
    if c == [] then []
    else if Contains(c, DESCRIPCION) then AfterMarker(c, DESCRIPCION)
    else [c]
  }

  function ContentPieces(frags: seq<string>): seq<string>
    decreases |frags|
  {
    if frags == [] then [] else ContentPiece(frags[0]) + ContentPieces(frags[1..])
  }

  /** Once collecting, the content loop takes the pieces of every fragment
      up to the first stop fragment. */
  lemma {:induction false} CollectingUntilStop(frags: seq<string>, acc: seq<string>)
    ensures ContentLoop(frags, acc, true) == acc + ContentPieces(frags[..FirstStop(frags)])
    decreases |frags|
  {
    var s := FirstStop(frags);
    if frags == [] {
      assert acc + [] == acc;
    } else if s == 0 {
      assert ContentLoop(frags, acc, true) == acc;
      assert acc + [] == acc;
    } else {
      var p := ContentPiece(frags[0]);
      if Strip(frags[0]) == [] {
        assert acc + p == acc;
      }
      assert ContentLoop(frags, acc, true) == ContentLoop(frags[1..], acc + p, true);
      CollectingUntilStop(frags[1..], acc + p);
      assert frags[..s][0] == frags[0];
      assert frags[..s][1..] == frags[1..][..s - 1];
      ConcatAssoc(acc, p, ContentPieces(frags[1..][..s - 1]));
    }
  }

  /** The content scan, stated by index: the content is made of the pieces
      of the fragments from the first "Descripción:" fragment up to (not
      including) the first fragment with "NOTAS" and no "Descripción:", and
      is empty when no such marker fragment comes before that stop. */
  lemma {:induction false} ContentReference(frags: seq<string>, acc: seq<string>)
    ensures ContentLoop(frags, acc, false) == acc + ContentPieces(ContentRun(frags))
    decreases |frags|
  {
    if frags == [] {
      assert acc + [] == acc;
    } else {
      var t := Strip(frags[0]);
      if t == [] {
        ShortNotContains(t, DESCRIPCION);
        ShortNotContains(t, NOTAS_MARKER);
        assert ContentLoop(frags, acc, false) == ContentLoop(frags[1..], acc, false);
        ContentReference(frags[1..], acc);
        ContentRunSkip(frags);
      } else if Contains(t, DESCRIPCION) {
        var p := AfterMarker(t, DESCRIPCION);
        assert ContentLoop(frags, acc, false) == ContentLoop(frags[1..], acc + p, true);
        CollectingUntilStop(frags[1..], acc + p);
        ContentRunMarker(frags);
        ConcatAssoc(acc, p, ContentPieces(frags[1..][..FirstStop(frags[1..])]));
      } else if Contains(t, NOTAS_MARKER) {
        assert ContentLoop(frags, acc, false) == acc;
        assert acc + [] == acc;
      } else {
        assert ContentLoop(frags, acc, false) == ContentLoop(frags[1..], acc, false);
        ContentReference(frags[1..], acc);
        ContentRunSkip(frags);
      }
    }
  }

  /** The fragments the content is read from: from the first marker
      fragment up to (not including) the first stop fragment, or none when
      the stop comes first. */
  function ContentRun(frags: seq<string>): seq<string> {
    var j, s := FirstMarker(frags), FirstStop(frags);
    if j < s then frags[j..s] else []
  }

  lemma {:induction false} ContentRunSkip(frags: seq<string>)
    requires frags != [] && !IsMarker(frags[0]) && !IsStop(frags[0])
    ensures ContentRun(frags) == ContentRun(frags[1..])
  {
    var j, s := FirstMarker(frags[1..]), FirstStop(frags[1..]);
    assert FirstMarker(frags) == 1 + j;
    assert FirstStop(frags) == 1 + s;
    if j < s {
      DropSlice(frags, 1, j, s);
    }
  }

  lemma {:induction false} ContentRunMarker(frags: seq<string>)
    requires frags != [] && IsMarker(frags[0])
    ensures ContentPieces(ContentRun(frags)) == AfterMarker(Strip(frags[0]), DESCRIPCION) + ContentPieces(frags[1..][..FirstStop(frags[1..])])
  {
    var s := FirstStop(frags);
    assert FirstMarker(frags) == 0;
    assert s == 1 + FirstStop(frags[1..]);
    var r := ContentRun(frags);
    assert r == frags[0..s];
    assert r[0] == frags[0];
    assert r[1..] == frags[1..][..s - 1];
  }

  /** Nothing from the stop fragment on can reach the content. */
  lemma {:induction false} ContentIgnoresAfterStop(frags: seq<string>, rest: seq<string>)
    requires FirstStop(frags) < |frags|
    ensures ContentOf(frags + rest) == ContentOf(frags)
  {
    ContentRunPrefix(frags, rest);
    ContentReference(frags + rest, []);
    ContentReference(frags, []);
    assert ContentLoop(frags + rest, [], false) == ContentLoop(frags, [], false);
  }

  /** The run ends at the stop fragment, whatever follows it. */
  lemma {:induction false} ContentRunPrefix(frags: seq<string>, rest: seq<string>)
    requires FirstStop(frags) < |frags|
    ensures ContentRun(frags + rest) == ContentRun(frags)
  {
    FirstStopPrefix(frags, rest);
    FirstMarkerPrefix(frags, rest, FirstStop(frags));
    ContentRunSameBounds(frags, rest);
  }

  lemma {:induction false} ContentRunSameBounds(frags: seq<string>, rest: seq<string>)
    requires FirstStop(frags + rest) == FirstStop(frags)
    requires FirstMarker(frags) < FirstStop(frags) <==> FirstMarker(frags + rest) < FirstStop(frags)
    requires FirstMarker(frags) < FirstStop(frags) ==> FirstMarker(frags + rest) == FirstMarker(frags)
    ensures ContentRun(frags + rest) == ContentRun(frags)
  {
    var j, s := FirstMarker(frags), FirstStop(frags);
    if j < s {
      PrefixSlice(frags, rest, j, s);
    }
  }

  lemma {:induction false} FirstStopPrefix(frags: seq<string>, rest: seq<string>)
    requires FirstStop(frags) < |frags|
    ensures FirstStop(frags + rest) == FirstStop(frags)
    decreases |frags|
  {
    assert (frags + rest)[0] == frags[0];
    if !IsStop(frags[0]) {
      assert (frags + rest)[1..] == frags[1..] + rest;
      FirstStopPrefix(frags[1..], rest);
    }
  }

  lemma {:induction false} FirstMarkerPrefix(frags: seq<string>, rest: seq<string>, s: nat)
    requires s <= |frags|
    ensures FirstMarker(frags) < s <==> FirstMarker(frags + rest) < s
    ensures FirstMarker(frags) < s ==> FirstMarker(frags + rest) == FirstMarker(frags)
    decreases |frags|
  {
    if frags == [] {
      assert frags + rest == rest;
    } else {
      assert (frags + rest)[0] == frags[0];
      if !IsMarker(frags[0]) && s > 0 {
        assert (frags + rest)[1..] == frags[1..] + rest;
        FirstMarkerPrefix(frags[1..], rest, s - 1);
      }
    }
  }

  /** Without a "Descripción:" fragment before the first stop, there is no
      content at all. */
  lemma {:induction false} ContentNeedsMarker(frags: seq<string>)
    requires FirstStop(frags) <= FirstMarker(frags)
    ensures ContentOf(frags) == None
  {
    ContentReference(frags, []);
    assert ContentRun(frags) == [];
    assert ContentLoop(frags, [], false) == [] + [];
  }

  /** The paragraph `[".. Descripción: A", "B", "NOTAS C", "D"]` has the
      content "A B": the text after the marker, then the next fragment,
      until the notes begin. */
  lemma {:induction false} ContentExample()
    ensures ContentOf([".. Descripción: A", "B", "NOTAS C", "D"]) == Some("A B")
  {
    ContentExampleOf(".. Descripción: A", "B", "NOTAS C", "D");
  }

  lemma {:induction false} ContentExampleOf(f0: string, f1: string, f2: string, f3: string)
    requires f0 == ".. Descripción: A" && f1 == "B" && f2 == "NOTAS C" && f3 == "D"
    ensures ContentOf([f0, f1, f2, f3]) == Some("A B")
  {
    ExampleMarkerFragment(f0);
    ExampleAfterMarker(f1, f2, f3);
    assert [f0, f1, f2, f3][1..] == [f1, f2, f3];
    assert [] + ["A"] == ["A"];
    assert ContentLoop([f0, f1, f2, f3], [], false) == ["A", "B"];
    FinishPair("A", "B");
    assert "A" + " " + "B" == "A B";
  }

  lemma {:induction false} ExampleMarkerFragment(f0: string)
    requires f0 == ".. Descripción: A"
    ensures Strip(f0) == f0 && Contains(f0, DESCRIPCION) && AfterMarker(f0, DESCRIPCION) == ["A"]
  {
    MarkersOverlapFree();
    StripTrimmed(f0);
    assert f0 == ".. " + DESCRIPCION + " A";
    ContainsMiddle(".. ", DESCRIPCION, " A");
    ShortNotContains(" A", DESCRIPCION);
    SplitLastOf(".. ", DESCRIPCION, " A");
    assert Strip(" A") == "A";
  }

  lemma {:induction false} ExampleAfterMarker(f1: string, f2: string, f3: string)
    requires f1 == "B" && f2 == "NOTAS C"
    ensures ContentLoop([f1, f2, f3], ["A"], true) == ["A", "B"]
  {
    StripTrimmed(f1);
    StripTrimmed(f2);
    ShortNotContains(f1, DESCRIPCION);
    ShortNotContains(f1, NOTAS_MARKER);
    ShortNotContains(f2, DESCRIPCION);
    assert f2 == [] + NOTAS_MARKER + " C";
    ContainsMiddle([], NOTAS_MARKER, " C");
    assert [f1, f2, f3][1..] == [f2, f3];
    assert ContentLoop([f2, f3], ["A", "B"], true) == ["A", "B"];
  }

  // ---------------------------------------------------------------------
  // extract_notes_section

  /** The notes loop as a function: what it has collected once it has gone
      through `frags`, starting from the parts `acc` and the flag
      `collecting`. */
  function NotesLoop(frags: seq<string>, acc: seq<string>, collecting: bool): seq<string>
    decreases |frags|
  {
    if frags == [] then acc
    else
      var t := Strip(frags[0]);
      if t == [] then NotesLoop(frags[1..], acc, collecting)
      else if Contains(t, NOTAS_MARKER) then NotesLoop(frags[1..], acc + AfterMarker(t, NOTAS_MARKER), true)
      else if collecting then NotesLoop(frags[1..], acc + [t], collecting)
      else NotesLoop(frags[1..], acc, collecting)
  }

  /** Field 7 of a record: the notes of the description paragraph. */
  function NotesOf(fragments: seq<string>): Option<string> {
    Finish(NotesLoop(fragments, [], false))
  }

  /** Every collected part is stripped and non-empty. */
  lemma {:induction false} NotesLoopTrimmed(frags: seq<string>, acc: seq<string>, collecting: bool)
    requires AllTrimmed(acc)
    ensures AllTrimmed(NotesLoop(frags, acc, collecting))
    decreases |frags|
  {
    if frags != [] {
      var t := Strip(frags[0]);
      if t == [] {
        NotesLoopTrimmed(frags[1..], acc, collecting);
      } else if Contains(t, NOTAS_MARKER) {
        AfterMarkerTrimmed(t, NOTAS_MARKER);
        AllTrimmedConcat(acc, AfterMarker(t, NOTAS_MARKER));
        NotesLoopTrimmed(frags[1..], acc + AfterMarker(t, NOTAS_MARKER), true);
      } else if collecting {
        AllTrimmedConcat(acc, [t]);
        NotesLoopTrimmed(frags[1..], acc + [t], collecting);
      } else {
        NotesLoopTrimmed(frags[1..], acc, collecting);
      }
    }
  }

  /** The notes are stripped whenever there are some. */
  lemma {:induction false} NotesOfTrimmed(fragments: seq<string>)
    ensures NotesOf(fragments).Some? ==> Trimmed(NotesOf(fragments).value)
  {
    NotesLoopTrimmed(fragments, [], false);
    FinishTrimmed(NotesLoop(fragments, [], false));
  }

  /** `extract_notes_section`, over the paragraph's text fragments. */
  method ExtractNotesSection(fragments: seq<string>) returns (notes: Option<string>)
    ensures notes == NotesOf(fragments)
  {
    var notesParts: seq<string> := [];
    var collectingNotes := false;
    for i := 0 to |fragments|
      invariant NotesLoop(fragments[i..], notesParts, collectingNotes) == NotesLoop(fragments, [], false)
    {
      assert fragments[i..][0] == fragments[i] && fragments[i..][1..] == fragments[i + 1..];
      ghost var rest := NotesLoop(fragments[i..], notesParts, collectingNotes);
      var cleanText := Strip(fragments[i]);
      if cleanText == [] {
        assert rest == NotesLoop(fragments[i + 1..], notesParts, collectingNotes);
        continue;
      }
      if Contains(cleanText, NOTAS_MARKER) {
        ghost var piece := AfterMarker(cleanText, NOTAS_MARKER);
        assert rest == NotesLoop(fragments[i + 1..], notesParts + piece, true);
        collectingNotes := true;
        cleanText := Strip(SplitLast(cleanText, NOTAS_MARKER));
        if cleanText != [] {
          assert piece == [cleanText];
          notesParts := notesParts + [cleanText];
        } else {
          assert notesParts + piece == notesParts;
        }
        continue;
      }
      if collectingNotes {
        assert rest == NotesLoop(fragments[i + 1..], notesParts + [cleanText], collectingNotes);
        notesParts := notesParts + [cleanText];
      } else {
        assert rest == NotesLoop(fragments[i + 1..], notesParts, collectingNotes);
      }
    }
    assert fragments[|fragments|..] == [];
    notes := Finish(notesParts);
  }

  /** The fragment holds the notes marker. */
  predicate HasNotas(t: string) {
    Contains(Strip(t), NOTAS_MARKER)
  }

  /** Index of the first fragment satisfying `HasNotas`, or `|frags|`. */
  function FirstNotas(frags: seq<string>): (k: nat)
    ensures k <= |frags|
    ensures forall j :: 0 <= j < k ==> !HasNotas(frags[j])
    ensures k < |frags| ==> HasNotas(frags[k])
    decreases |frags|
  {
    if frags == [] then 0
    else if HasNotas(frags[0]) then 0
    else 1 + FirstNotas(frags[1..])
  }

  /** What one fragment from the first "NOTAS" fragment on adds to the
      notes: the text after the last "NOTAS" for a marker fragment, else the
      fragment stripped; blank results add nothing. */
  function NotesPiece(t: string): seq<string> {
    var c := Strip(t);
    if c == [] then []
    else if Contains(c, NOTAS_MARKER) then AfterMarker(c, NOTAS_MARKER)
    else [c]
  }

  function NotesPieces(frags: seq<string>): seq<string>
    decreases |frags|
  {
    if frags == [] then [] else NotesPiece(frags[0]) + NotesPieces(frags[1..])
  }

  /** Once collecting, the notes loop takes the pieces of every remaining
      fragment. */
  lemma {:induction false} CollectingNotesToEnd(frags: seq<string>, acc: seq<string>)
    ensures NotesLoop(frags, acc, true) == acc + NotesPieces(frags)
    decreases |frags|
  {
    if frags == [] {
      assert acc + [] == acc;
    } else {
      var p := NotesPiece(frags[0]);
      if Strip(frags[0]) == [] {
        assert acc + p == acc;
      }
      assert NotesLoop(frags, acc, true) == NotesLoop(frags[1..], acc + p, true);
      CollectingNotesToEnd(frags[1..], acc + p);
      ConcatAssoc(acc, p, NotesPieces(frags[1..]));
    }
  }

  /** The notes scan, stated by index: the notes are the pieces of every
      fragment from the first "NOTAS" fragment to the end, whether or not a
      "Descripción:" fragment came before. */
  lemma {:induction false} NotesReference(frags: seq<string>, acc: seq<string>)
    ensures NotesLoop(frags, acc, false) == acc + NotesPieces(frags[FirstNotas(frags)..])
    decreases |frags|
  {
    var n := FirstNotas(frags);
    if frags == [] {
      assert acc + [] == acc;
    } else {
      var t := Strip(frags[0]);
      if t == [] {
        ShortNotContains(t, NOTAS_MARKER);
        assert NotesLoop(frags, acc, false) == NotesLoop(frags[1..], acc, false);
        NotesReference(frags[1..], acc);
        assert frags[1..][n - 1..] == frags[n..];
      } else if Contains(t, NOTAS_MARKER) {
        var p := AfterMarker(t, NOTAS_MARKER);
        assert NotesLoop(frags, acc, false) == NotesLoop(frags[1..], acc + p, true);
        CollectingNotesToEnd(frags[1..], acc + p);
        assert frags[0..] == frags;
        assert NotesPiece(frags[0]) == p;
        ConcatAssoc(acc, p, NotesPieces(frags[1..]));
      } else {
        assert NotesLoop(frags, acc, false) == NotesLoop(frags[1..], acc, false);
        NotesReference(frags[1..], acc);
        assert frags[1..][n - 1..] == frags[n..];
      }
    }
  }

  /** No "NOTAS" fragment, no notes. */
  lemma {:induction false} NotesNeedMarker(frags: seq<string>)
    requires FirstNotas(frags) == |frags|
    ensures NotesOf(frags) == None
  {
    NotesReference(frags, []);
    assert frags[|frags|..] == [];
    assert [] + NotesPieces([]) == [];
  }

  /** The same paragraph `[".. Descripción: A", "B", "NOTAS C", "D"]` has
      the notes "C D": the text after "NOTAS" and every fragment after it. */
  lemma {:induction false} NotesExample()
    ensures NotesOf([".. Descripción: A", "B", "NOTAS C", "D"]) == Some("C D")
  {
    NotesExampleOf(".. Descripción: A", "B", "NOTAS C", "D");
  }

  lemma {:induction false} NotesExampleOf(f0: string, f1: string, f2: string, f3: string)
    requires f0 == ".. Descripción: A" && f1 == "B" && f2 == "NOTAS C" && f3 == "D"
    ensures NotesOf([f0, f1, f2, f3]) == Some("C D")
  {
    ExampleBeforeNotes(f0, f1);
    ExampleNotesFragment(f2);
    StripTrimmed(f3);
    ShortNotContains(f3, NOTAS_MARKER);
    assert [f0, f1, f2, f3][1..] == [f1, f2, f3] && [f1, f2, f3][1..] == [f2, f3] && [f2, f3][1..] == [f3];
    assert [f3][1..] == [];
    assert [] + ["C"] == ["C"];
    assert NotesLoop([f3], ["C"], true) == ["C", "D"];
    assert NotesLoop([f2, f3], [], false) == ["C", "D"];
    assert NotesLoop([f1, f2, f3], [], false) == ["C", "D"];
    assert NotesLoop([f0, f1, f2, f3], [], false) == ["C", "D"];
    FinishPair("C", "D");
    assert "C" + " " + "D" == "C D";
  }

  lemma {:induction false} ExampleBeforeNotes(f0: string, f1: string)
    requires f0 == ".. Descripción: A" && f1 == "B"
    ensures Strip(f0) == f0 && !Contains(f0, NOTAS_MARKER)
    ensures Strip(f1) == f1 && !Contains(f1, NOTAS_MARKER)
  {
    StripTrimmed(f0);
    StripTrimmed(f1);
    MissingFirstNotContains(f0, NOTAS_MARKER);
    ShortNotContains(f1, NOTAS_MARKER);
  }

  lemma {:induction false} ExampleNotesFragment(f2: string)
    requires f2 == "NOTAS C"
    ensures Strip(f2) == f2 && Contains(f2, NOTAS_MARKER) && AfterMarker(f2, NOTAS_MARKER) == ["C"]
  {
    MarkersOverlapFree();
    StripTrimmed(f2);
    assert f2 == [] + NOTAS_MARKER + " C";
    ContainsMiddle([], NOTAS_MARKER, " C");
    ShortNotContains(" C", NOTAS_MARKER);
    SplitLastOf([], NOTAS_MARKER, " C");
    assert Strip(" C") == "C";
  }

  // ---------------------------------------------------------------------
  // parse

  /** What `parse` reads from a fetched page: its URL, the title text (if
      the selector matched), for each fieldName the text nodes of the
      paragraphs containing it, whether a paragraph containing
      "Descripción:" exists, and that paragraph's text nodes. */
  datatype Page = Page(
    url: string,
    title: Option<string>,
    labelTexts: map<string, seq<string>>,
    hasDescripcion: bool,
    descripcion: seq<string>)

  /** `response.css(f'p:contains("{fieldName}") ::text').getall()`. */
  function TextsFor(page: Page, fieldName: string): seq<string> {
    if fieldName in page.labelTexts then page.labelTexts[fieldName] else []
  }

  /** The fields scraper.py fills through `clean_field_content`, key and fieldName. */
  const FIELDS: seq<(Field, string)> := [
    (Seccion, "Sección"),
    (Personas, "Personas"),
    (Lugares, "Lugares"),
    (PalabrasClave, "Palabras Clave"),
    (Traduccion, "Traducción")]

  /** None of the labels can overlap itself, so `split(label)[-1]` is the
      text after the label's last occurrence. */
  lemma {:induction false} LabelsOverlapFree()
    ensures forall k :: 0 <= k < |FIELDS| ==> FIELDS[k].1 != [] && SelfOverlapFree(FIELDS[k].1)
  {
    FirstCharUnique(FIELDS[0].1);
    FirstCharUnique(FIELDS[1].1);
    FirstCharUnique(FIELDS[2].1);
    FirstCharUnique(FIELDS[3].1);
    FirstCharUnique(FIELDS[4].1);
  }

  /** The date scraper.py writes into every record. */
  const SCRAPED_AT := "2024-01-01"

  /** `title.strip() if title else None`: an empty title is absent, while a
      title of whitespace only becomes the empty string. */
  function TitleOf(title: Option<string>): (r: Option<string>)
    ensures title.None? || title.value == [] ==> r == None
    ensures title.Some? && title.value != [] ==> r.Some? && (r.value == [] || Trimmed(r.value))
  {
    if title.Some? && title.value != [] then Some(Strip(title.value)) else None
  }

  /** A title without surrounding whitespace is kept as it is. */
  lemma {:induction false} TitleOfTrimmed(title: string)
    requires Trimmed(title)
    ensures TitleOf(Some(title)) == Some(title)
  {
    StripTrimmed(title);
  }

  /** Whitespace around a title is dropped: the record holds the title
      itself. */
  lemma {:induction false} TitleOfPadded(w1: string, title: string, w2: string)
    requires forall k :: 0 <= k < |w1| ==> IsSpace(w1[k])
    requires forall k :: 0 <= k < |w2| ==> IsSpace(w2[k])
    requires Trimmed(title)
    ensures TitleOf(Some(w1 + title + w2)) == Some(title)
  {
    StripPadded(w1, title, w2);
  }

  /** A title of whitespace only is kept as the empty string, not `None`. */
  lemma {:induction false} TitleOfBlank(title: string)
    requires title != [] && forall k :: 0 <= k < |title| ==> IsSpace(title[k])
    ensures TitleOf(Some(title)) == Some([])
  {
    StripEmptyIff(title);
  }

  /** The keys of a (key, fieldName) table. */
  function TableKeys(table: seq<(Field, string)>): (r: set<Field>)
    ensures forall k :: 0 <= k < |table| ==> table[k].0 in r
    decreases |table|
  {
    if table == [] then {} else TableKeys(table[..|table| - 1]) + {table[|table| - 1].0}
  }

  /** A table names no key beyond its own rows. */
  lemma {:induction false} TableKeysOnly(table: seq<(Field, string)>, key: Field)
    requires key in TableKeys(table)
    ensures exists k :: 0 <= k < |table| && table[k].0 == key
    decreases |table|
  {
    var n := |table| - 1;
    if key != table[n].0 {
      TableKeysOnly(table[..n], key);
      var k :| 0 <= k < n && table[..n][k].0 == key;
      assert table[k].0 == key;
    }
  }

  /** What the loop `for field_key, field_label in fields.items()` of
      `parse` leaves in the record once it has gone through `table`: each key
      set to the cleaned text of its fieldName's fragments, in table order. */
  function FilledFields(page: Page, table: seq<(Field, string)>, fields0: map<Field, Option<string>>): map<Field, Option<string>>
    requires forall k :: 0 <= k < |table| ==> table[k].1 != []
    decreases |table|
  {
    if table == [] then fields0
    else
      var n := |table| - 1;
      FilledFields(page, table[..n], fields0)[table[n].0 := CleanFieldContent(TextsFor(page, table[n].1), table[n].1)]
  }

  /** With distinct keys, every key of the table holds its own cleaned text
      and every other key keeps its value. */
  lemma {:induction false} FilledFieldsSpec(page: Page, table: seq<(Field, string)>, fields0: map<Field, Option<string>>)
    requires forall k :: 0 <= k < |table| ==> table[k].1 != []
    requires forall j, k :: 0 <= j < k < |table| ==> table[j].0 != table[k].0
    ensures FilledFields(page, table, fields0).Keys == fields0.Keys + TableKeys(table)
    ensures forall k :: 0 <= k < |table| ==>
      FilledFields(page, table, fields0)[table[k].0] == CleanFieldContent(TextsFor(page, table[k].1), table[k].1)
    ensures forall key :: key in fields0 && key !in TableKeys(table) ==> FilledFields(page, table, fields0)[key] == fields0[key]
    decreases |table|
  {
    if table != [] {
      var n := |table| - 1;
      var front := table[..n];
      FilledFieldsSpec(page, front, fields0);
      assert forall k :: 0 <= k < n ==> front[k] == table[k];
      var m := FilledFields(page, front, fields0);
      var key := table[n].0;
      var v := CleanFieldContent(TextsFor(page, table[n].1), table[n].1);
      var r := FilledFields(page, table, fields0);
      assert r == m[key := v];
      assert TableKeys(table) == TableKeys(front) + {key};
      forall k | 0 <= k < |table|
        ensures r[table[k].0] == CleanFieldContent(TextsFor(page, table[k].1), table[k].1)
      {
        if k < n {
          assert table[k].0 != key;
          assert r[table[k].0] == m[front[k].0];
        }
      }
      forall f | f in fields0 && f !in TableKeys(table)
        ensures r[f] == fields0[f]
      {
        assert f != key && f !in TableKeys(front);
      }
    }
  }

  /** `parse`'s loop over the (key, fieldName) table. */
  method FillLabelledFields(page: Page, table: seq<(Field, string)>, fields0: map<Field, Option<string>>)
    returns (fields: map<Field, Option<string>>)
    requires forall k :: 0 <= k < |table| ==> table[k].1 != []
    ensures fields == FilledFields(page, table, fields0)
  {
    fields := fields0;
    for i := 0 to |table|
      invariant fields == FilledFields(page, table[..i], fields0)
    {
      var (fieldKey, fieldLabel) := table[i];
      assert table[..i + 1][..i] == table[..i];
      fields := fields[fieldKey := CleanFieldContent(TextsFor(page, fieldLabel), fieldLabel)];
    }
    assert table[..|table|] == table;
  }

  /** The field table fills five distinct fields, none of them the title,
      the content or the notes. */
  lemma {:induction false} FieldsKeys()
    ensures Title !in TableKeys(FIELDS) && Content !in TableKeys(FIELDS) && Notas !in TableKeys(FIELDS)
    ensures forall j, k :: 0 <= j < k < |FIELDS| ==> FIELDS[j].0 != FIELDS[k].0
  {
    forall f | f in TableKeys(FIELDS)
      ensures f != Title && f != Content && f != Notas
    {
      TableKeysOnly(FIELDS, f);
    }
  }

  /** The dictionary `parse` builds from a page, given its (key, fieldName)
      table: the title, the labelled fields, then content and notes. */
  function PageFields(page: Page, table: seq<(Field, string)>): map<Field, Option<string>>
    requires forall k :: 0 <= k < |table| ==> table[k].1 != []
  {
    var labelled := FilledFields(page, table, map[Title := TitleOf(page.title)]);
    if page.hasDescripcion then
      labelled[Content := ContentOf(page.descripcion)][Notas := NotesOf(page.descripcion)]
    else
      labelled[Content := None][Notas := None]
  }

  /** A table for `PageFields`: non-empty fieldNames, distinct keys, none
      of them the title, the content or the notes. */
  predicate LabelTable(table: seq<(Field, string)>) {
    (forall k :: 0 <= k < |table| ==> table[k].1 != []) &&
    (forall j, k :: 0 <= j < k < |table| ==> table[j].0 != table[k].0) &&
    Title !in TableKeys(table) && Content !in TableKeys(table) && Notas !in TableKeys(table)
  }

  /** The record has the title, the table's fields, the content and the
      notes, and nothing else. */
  lemma {:induction false} PageFieldsKeys(page: Page, table: seq<(Field, string)>)
    requires LabelTable(table)
    ensures forall f :: f in PageFields(page, table) <==> f in TableKeys(table) || f == Title || f == Content || f == Notas
  {
    FilledFieldsSpec(page, table, map[Title := TitleOf(page.title)]);
  }

  /** Field 1 is the title as `TitleOf` cleans it. */
  lemma {:induction false} PageFieldsTitle(page: Page, table: seq<(Field, string)>)
    requires LabelTable(table)
    ensures Title in PageFields(page, table) && PageFields(page, table)[Title] == TitleOf(page.title)
  {
    FilledFieldsSpec(page, table, map[Title := TitleOf(page.title)]);
  }

  /** Each labelled field is the cleaned text of its fieldName. */
  lemma {:induction false} PageFieldsLabelled(page: Page, table: seq<(Field, string)>)
    requires LabelTable(table)
    ensures forall k :: 0 <= k < |table| ==>
      table[k].0 in PageFields(page, table) &&
      PageFields(page, table)[table[k].0] == CleanFieldContent(TextsFor(page, table[k].1), table[k].1)
  {
    FilledFieldsSpec(page, table, map[Title := TitleOf(page.title)]);
  }

  /** Fields 6 and 7 come from the description paragraph, or are `None`
      without one. */
  lemma {:induction false} PageFieldsDescription(page: Page, table: seq<(Field, string)>)
    requires LabelTable(table)
    ensures Content in PageFields(page, table) && Notas in PageFields(page, table)
    ensures !page.hasDescripcion ==> PageFields(page, table)[Content] == None && PageFields(page, table)[Notas] == None
    ensures page.hasDescripcion ==>
      PageFields(page, table)[Content] == ContentOf(page.descripcion) &&
      PageFields(page, table)[Notas] == NotesOf(page.descripcion)
  {
  }

  /** The body of `parse` after the title: the labelled fields, then the
      description paragraph's two fields. */
  method AssembleFields(page: Page, table: seq<(Field, string)>) returns (fields: map<Field, Option<string>>)
    requires forall k :: 0 <= k < |table| ==> table[k].1 != []
    ensures fields == PageFields(page, table)
  {
    fields := map[Title := TitleOf(page.title)];
    fields := FillLabelledFields(page, table, fields);
    if page.hasDescripcion {
      var content := ExtractDocumentContent(page.descripcion);
      var notes := ExtractNotesSection(page.descripcion);
      fields := fields[Content := content][Notas := notes];
    } else {
      fields := fields[Content := None][Notas := None];
    }
  }

  /** The single-document record has all eight fields. */
  lemma {:induction false} ParsedKeys(page: Page)
    ensures LabelTable(FIELDS)
    ensures forall f :: f in PageFields(page, FIELDS)
  {
    FieldsKeys();
    PageFieldsKeys(page, FIELDS);
    forall f | f != Title && f != Content && f != Notas
      ensures f in TableKeys(FIELDS)
    {
      var k := match f
        case Seccion => 0
        case Personas => 1
        case Lugares => 2
        case PalabrasClave => 3
        case _ => 4;
      assert FIELDS[k].0 == f;
    }
  }

  /** `parse`: the record for one page. */
  method Parse(page: Page) returns (r: Record)
    ensures r.id == None && r.url == page.url && r.scrapedAt == SCRAPED_AT && r.error == None
    ensures r.fields == PageFields(page, FIELDS)
  {
    var fields := AssembleFields(page, FIELDS);
    r := Record(None, page.url, SCRAPED_AT, fields, None);
  }
}
