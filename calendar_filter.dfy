/** The transparency filter of the calendar relay: the parsed upstream
    calendar's top-level components are walked in order and every one is
    pushed onto a fresh calendar except the events judged free, which are
    the events whose serialised text contains `TRANSP:TRANSPARENT`. */
module CalendarFilter {
  import opened Substring

  /** A top-level calendar component. For an event, `text` is the event's
      serialised form (what the calendar library prints for it); every other
      kind (to-do, journal, time zone, ...) is opaque to the filter. */
  datatype Component =
    | Event(text: string)
    | NonEvent(kind: string, payload: string)

  /** A calendar-level property such as PRODID or VERSION. */
  datatype Property = Property(name: string, value: string)

  /** A calendar: its own properties and its ordered top-level components. */
  datatype Calendar = Calendar(properties: seq<Property>, components: seq<Component>)
  {
    /** Appends one component, leaving the calendar's properties alone. */
    function Push(c: Component): Calendar
    {
      this.(components := components + [c])
    }
  }

  /** A freshly created calendar holds no properties and no components. */
  function NewCalendar(): Calendar
  {
    Calendar([], [])
  }

  /** The literal the filter looks for in an event's text. */
  const FreeMarker: string := "TRANSP:TRANSPARENT"

  /** An event is free when its text contains the marker anywhere, with this
      exact case and no parameter between `TRANSP` and `:`; a component that
      is not an event is never free. */
  function IsFree(c: Component): (r: bool)
    ensures r <==> c.Event? && exists i :: OccursAt(c.text, FreeMarker, i)
  {
    match c
    case Event(text) => Contains(text, FreeMarker)
    case NonEvent(_, _) => false
  }

  /** The components the filter keeps, in their original order. Defined from
      the back because the filter appends as it goes. */
  function Kept(cs: seq<Component>): seq<Component>
    decreases |cs|
  {
    if cs == [] then []
    else
      var last := cs[|cs| - 1];
      Kept(cs[..|cs| - 1]) + (if IsFree(last) then [] else [last])
  }

  /** The filter loop of the request handler: starts from an empty calendar
      and pushes every component of `calendar` that is not free. */
  method FilterCalendar(calendar: Calendar) returns (filtered: Calendar)
    ensures filtered.properties == []
    ensures filtered.components == Kept(calendar.components)
  {
    filtered := NewCalendar();
    for i := 0 to |calendar.components|
      invariant filtered.properties == []
      invariant filtered.components == Kept(calendar.components[..i])
    {
      var component := calendar.components[i];
      assert calendar.components[..i + 1][..i] == calendar.components[..i];
      var isFree := IsFree(component);
      if !isFree {
        filtered := filtered.Push(component);
      }
    }
    assert calendar.components[..|calendar.components|] == calendar.components;
  }

  // ---------------------------------------------------------------------
  // Order-preserving selection

  /** `out` is the subsequence of `cs` at the strictly increasing positions
      `idx`, and those positions are exactly the ones holding a component
      that is not free. */
  ghost predicate SelectsExactlyNonFree(out: seq<Component>, cs: seq<Component>, idx: seq<nat>)
  {
    && |idx| == |out|
    && (forall k :: 0 <= k < |idx| ==> idx[k] < |cs| && out[k] == cs[idx[k]])
    && (forall j, k :: 0 <= j < k < |idx| ==> idx[j] < idx[k])
    && (forall i :: 0 <= i < |cs| ==> (i in idx <==> !IsFree(cs[i])))
  }

  /** The positions of `cs` that the filter keeps, in increasing order. */
  function KeptPositions(cs: seq<Component>): seq<nat>
    decreases |cs|
  {
    if cs == [] then []
    else
      KeptPositions(cs[..|cs| - 1]) + (if IsFree(cs[|cs| - 1]) then [] else [|cs| - 1])
  }

  /** The kept components are the input's non-free components at increasing
      positions: nothing is reordered, duplicated or invented, and exactly the
      free events are missing. */
  lemma {:induction false} KeptIsOrderedSelection(cs: seq<Component>)
    ensures SelectsExactlyNonFree(Kept(cs), cs, KeptPositions(cs))
    decreases |cs|
  {
    if cs != [] {
      var n := |cs| - 1;
      var front := cs[..n];
      KeptIsOrderedSelection(front);
      var idx0, out0 := KeptPositions(front), Kept(front);
      assert forall k :: 0 <= k < |idx0| ==> idx0[k] < n;
      var idx, out := KeptPositions(cs), Kept(cs);
      assert idx == idx0 + (if IsFree(cs[n]) then [] else [n]);
      assert out == out0 + (if IsFree(cs[n]) then [] else [cs[n]]);
      forall i | 0 <= i < |cs| ensures i in idx <==> !IsFree(cs[i]) {
        if i < n {
          assert cs[i] == front[i];
          assert i in idx <==> i in idx0;
        }
      }
    }
  }

  // ---------------------------------------------------------------------
  // Membership and multiplicity

  /** Every component that is not free survives with all its occurrences;
      a free one survives with none. */
  lemma {:induction false} KeptMultiplicity(cs: seq<Component>, c: Component)
    ensures multiset(Kept(cs))[c] == if IsFree(c) then 0 else multiset(cs)[c]
    decreases |cs|
  {
    if cs != [] {
      var n := |cs| - 1;
      KeptMultiplicity(cs[..n], c);
      assert cs == cs[..n] + [cs[n]];
      assert multiset(cs) == multiset(cs[..n]) + multiset([cs[n]]);
    }
  }

  /** A component is in the output exactly when it is in the input and not
      free. */
  lemma KeptMembership(cs: seq<Component>, c: Component)
    ensures c in Kept(cs) <==> c in cs && !IsFree(c)
  {
    KeptMultiplicity(cs, c);
    assert c in Kept(cs) <==> multiset(Kept(cs))[c] > 0;
    assert c in cs <==> multiset(cs)[c] > 0;
  }

  /** Every component that is not an event is retained, whatever it holds. */
  lemma NonEventsRetained(cs: seq<Component>)
    ensures forall i :: 0 <= i < |cs| && cs[i].NonEvent? ==> cs[i] in Kept(cs)
  {
    forall i | 0 <= i < |cs| && cs[i].NonEvent? ensures cs[i] in Kept(cs) {
      KeptMembership(cs, cs[i]);
    }
  }

  /** An event whose text contains the marker anywhere is not in the output. */
  lemma FreeEventDropped(cs: seq<Component>, before: string, after: string)
    ensures Event(before + FreeMarker + after) !in Kept(cs)
  {
    ContainsEmbedded(before, FreeMarker, after);
    KeptMembership(cs, Event(before + FreeMarker + after));
  }

  /** An event of the input whose text does not contain the exact marker is
      in the output, unchanged. */
  lemma OpaqueEventRetained(cs: seq<Component>, text: string)
    requires Event(text) in cs
    requires !Contains(text, FreeMarker)
    ensures Event(text) in Kept(cs)
  {
    KeptMembership(cs, Event(text));
  }

  // ---------------------------------------------------------------------
  // Length, identity and idempotence

  /** The number of free components of `cs`, counted from the front. */
  function FreeCount(cs: seq<Component>): nat
  {
    if cs == [] then 0 else (if IsFree(cs[0]) then 1 else 0) + FreeCount(cs[1..])
  }

  lemma {:induction false} FreeCountSnoc(cs: seq<Component>, c: Component)
    ensures FreeCount(cs + [c]) == FreeCount(cs) + (if IsFree(c) then 1 else 0)
    decreases |cs|
  {
    if cs != [] {
      assert (cs + [c])[1..] == cs[1..] + [c];
      FreeCountSnoc(cs[1..], c);
    }
  }

  /** The output is shorter than the input by exactly the number of free
      events. */
  lemma {:induction false} KeptLength(cs: seq<Component>)
    ensures |Kept(cs)| == |cs| - FreeCount(cs)
    decreases |cs|
  {
    if cs != [] {
      var n := |cs| - 1;
      KeptLength(cs[..n]);
      FreeCountSnoc(cs[..n], cs[n]);
      assert cs[..n] + [cs[n]] == cs;
    }
  }

  /** A component list with nothing free passes through unchanged. */
  lemma {:induction false} NothingFreeIsIdentity(cs: seq<Component>)
    requires forall i :: 0 <= i < |cs| ==> !IsFree(cs[i])
    ensures Kept(cs) == cs
    decreases |cs|
  {
    if cs != [] {
      var n := |cs| - 1;
      NothingFreeIsIdentity(cs[..n]);
      assert cs[..n] + [cs[n]] == cs;
    }
  }

  /** A component list without events, the empty one included, passes
      through unchanged. */
  lemma NoEventsIsIdentity(cs: seq<Component>)
    requires forall i :: 0 <= i < |cs| ==> !cs[i].Event?
    ensures Kept(cs) == cs
  {
    NothingFreeIsIdentity(cs);
  }

  /** Filtering the output again changes nothing. */
  lemma KeptIdempotent(cs: seq<Component>)
    ensures Kept(Kept(cs)) == Kept(cs)
  {
    var out := Kept(cs);
    forall i | 0 <= i < |out| ensures !IsFree(out[i]) {
      KeptMembership(cs, out[i]);
    }
    NothingFreeIsIdentity(out);
  }

  /** A calendar that meets `FilterCalendar`'s postconditions is a fixed
      point of filtering: filtering it again gives back the same calendar,
      properties and components alike. */
  lemma FilterStable(calendar: Calendar, filtered: Calendar)
    requires filtered.properties == []
    requires filtered.components == Kept(calendar.components)
    ensures Calendar([], Kept(filtered.components)) == filtered
  {
    KeptIdempotent(calendar.components);
  }

  // ---------------------------------------------------------------------
  // Concrete cases of the raw substring test

  /** Position `i` of `s` cannot start `pattern` when one character differs. */
  lemma NotOccursAtIfDiffers(s: string, pattern: string, i: int, k: int)
    requires 0 <= i && 0 <= k < |pattern| && i + k < |s|
    requires s[i + k] != pattern[k]
    ensures !OccursAt(s, pattern, i)
  {
    if i <= |s| - |pattern| {
      assert s[i..i + |pattern|][k] == s[i + k];
    }
  }

  /** One opaque and one transparent event: only the opaque one is left. */
  lemma OpaqueAndTransparentEvents()
    ensures Kept([Event("TRANSP:OPAQUE"), Event("TRANSP:TRANSPARENT")]) == [Event("TRANSP:OPAQUE")]
  {
    var cs := [Event("TRANSP:OPAQUE"), Event("TRANSP:TRANSPARENT")];
    assert cs[..1] == [Event("TRANSP:OPAQUE")];
    assert [Event("TRANSP:OPAQUE")][..0] == [];
    assert IsFree(cs[1]) by {
      assert OccursAt("TRANSP:TRANSPARENT", FreeMarker, 0);
    }
  }

  /** The test is case-sensitive: a lower-case marker does not make an event
      free. */
  lemma LowerCaseMarkerIsNotFree()
    ensures !IsFree(Event("transp:transparent"))
  {
    NotContainsWithoutFirstChar("transp:transparent", FreeMarker);
  }

  /** A parameter between `TRANSP` and `:` defeats the test too. */
  lemma ParameterisedMarkerIsNotFree(s: string)
    requires s == "TRANSP;X-A=B:TRANSPARENT"
    ensures !IsFree(Event(s))
  {
    assert |s| == 24 && |FreeMarker| == 18;
    assert FreeMarker[0] == 'T' && FreeMarker[6] == ':';
    assert s[6] == ';' && s[7] == 'X' && s[8] == '-' && s[9] == 'A';
    assert s[10] == '=' && s[11] == 'B' && s[12] == ':';
    forall i | 0 <= i <= |s| - |FreeMarker| ensures !OccursAt(s, FreeMarker, i) {
      if i < 6 {
        NotOccursAtIfDiffers(s, FreeMarker, i, 6);
      } else {
        NotOccursAtIfDiffers(s, FreeMarker, i, 0);
      }
    }
  }

  /** A parameter does not always defeat the test: one whose value ends in
      `TRANSP` completes the marker with the `:` that follows it. */
  lemma ParameterEndingInTranspIsFree()
    ensures IsFree(Event("TRANSP;X-A=" + FreeMarker))
  {
    ContainsEmbedded("TRANSP;X-A=", FreeMarker, "");
    assert "TRANSP;X-A=" + FreeMarker + "" == "TRANSP;X-A=" + FreeMarker;
  }

  /** A line fold inside the marker, in the printed text, defeats the test:
      the test runs on the text as printed, not on unfolded lines. */
  lemma FoldedPrintedMarkerIsNotFree(s: string)
    requires s == "TRANSP:TRANS\r\n PARENT"
    ensures !IsFree(Event(s))
  {
    assert |s| == 21 && |FreeMarker| == 18;
    assert FreeMarker[0] == 'T' && FreeMarker[12] == 'P';
    assert s[1] == 'R' && s[2] == 'A' && s[3] == 'N' && s[12] == '\r';
    forall i | 0 <= i <= |s| - |FreeMarker| ensures !OccursAt(s, FreeMarker, i) {
      if i == 0 {
        NotOccursAtIfDiffers(s, FreeMarker, i, 12);
      } else {
        NotOccursAtIfDiffers(s, FreeMarker, i, 0);
      }
    }
  }

  /** The marker matches anywhere in the event's text, so an event is free
      even when the marker only appears inside another property's value and
      the event also says `TRANSP:OPAQUE`. */
  lemma MarkerInsideDescriptionIsFree()
    ensures IsFree(Event("DESCRIPTION:" + FreeMarker + "\r\nTRANSP:OPAQUE"))
  {
    ContainsEmbedded("DESCRIPTION:", FreeMarker, "\r\nTRANSP:OPAQUE");
  }
}
