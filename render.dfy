/** The decisions `renderFeed` takes for the rows the list query returns:
    emergency styling, kind labels, alternating cards, the highlighted text
    and the post count. */
module Render {
  import opened Wrappers
  import opened Schema

  /** A post is styled as an emergency when its kind is one of the alert kinds. */
  predicate IsEmergency(kind: string)
    ensures IsEmergency(kind) <==> ParseKind(kind).Some? && ParseKind(kind).value != Normal
  {
    kind == "help" || kind == "911" || kind == "emergency_address"
  }

  /** The label shown after the display name; empty for any other kind. */
  function Label(kind: string): (r: string)
    ensures r != "" <==> IsEmergency(kind)
    ensures r != "" ==> r[0] == '[' && r[|r| - 1] == ' '
  {
    if kind == "help" then "[HELP] "
    else if kind == "911" then "[911 ALERT – TRAINING ONLY] "
    else if kind == "emergency_address" then "[EMERGENCY & ADDRESS – TRAINING ONLY] "
    else ""
  }

  /** Exactly the emergency kinds carry a label, and among stored kinds
      every kind but normal is an emergency, each with its own label. */
  lemma EmergencyIffLabelled(kind: string)
    ensures IsEmergency(kind) <==> Label(kind) != ""
    ensures forall k: Kind :: IsEmergency(k.Name()) <==> k != Normal
    ensures forall k1: Kind, k2: Kind :: k1 != k2 && k1 != Normal ==> Label(k1.Name()) != Label(k2.Name())
  {
  }

  /** The decisions for one card. */
  datatype Card = Card(
    emergency: bool, alt: bool, kindLabel: string,
    handle: string, displayName: string, body: string, createdAt: nat)

  /** The card for the row at position `index`: emergency styling and the
      label of its own kind, the alternate style on odd positions, and the
      row's fields. */
  function CardFor(row: PostRecord, index: nat): (c: Card)
    ensures c.emergency <==> IsEmergency(row.kind)
    ensures c.kindLabel == Label(row.kind)
    ensures c.emergency <==> c.kindLabel != ""
    ensures c.alt <==> index % 2 == 1
    ensures c.handle == row.handle && c.displayName == row.displayName
    ensures c.body == row.body && c.createdAt == row.createdAt
  {
    Card(IsEmergency(row.kind), index % 2 == 1, Label(row.kind),
         row.handle, row.displayName, row.body, row.createdAt)
  }

  /** What the page shows after rendering. */
  datatype FeedView = FeedView(cards: seq<Card>, highlighted: string, postCount: nat)

  /** The position of the first highlighted row, if any. */
  function FirstHighlight(rows: seq<PostRecord>): (r: Option<nat>)
    ensures r.None? <==> forall i :: 0 <= i < |rows| ==> !rows[i].highlight
    ensures r.Some? ==>
              && r.value < |rows| && rows[r.value].highlight
              && forall j :: 0 <= j < r.value ==> !rows[j].highlight
  {
    if rows == [] then None
    else if rows[0].highlight then Some(0)
    else
      match FirstHighlight(rows[1..])
      case None => None
      case Some(k) => Some(k + 1)
  }

  /** Extending the rows seen so far by one row moves the first highlight
      only when there was none yet and the new row is highlighted. */
  lemma FirstHighlightExtend(rows: seq<PostRecord>, i: nat)
    requires i < |rows|
    ensures FirstHighlight(rows[..i + 1]) ==
              if FirstHighlight(rows[..i]).Some? then FirstHighlight(rows[..i])
              else if rows[i].highlight then Some(i)
              else None
  {
    var before, after := FirstHighlight(rows[..i]), FirstHighlight(rows[..i + 1]);
    assert forall j :: 0 <= j < i ==> rows[..i + 1][j] == rows[..i][j];
    if before.Some? {
      assert after.Some? && rows[..i + 1][before.value].highlight;
      assert !(after.value < before.value) && !(before.value < after.value);
    } else if after.Some? {
      assert after.value == i;
    }
  }

  /** The text of the highlight panel after rendering: the body of the first
      highlighted row, or the text it showed before. */
  function HighlightedText(rows: seq<PostRecord>, shown: string): (r: string)
    ensures (forall i :: 0 <= i < |rows| ==> !rows[i].highlight) ==> r == shown
    ensures forall i :: 0 <= i < |rows| && rows[i].highlight && (forall j :: 0 <= j < i ==> !rows[j].highlight) ==>
              r == rows[i].body
  {
    match FirstHighlight(rows)
    case Some(k) => rows[k].body
    case None => shown
  }

  /** `renderFeed(posts)`, given the text the highlight panel showed before:
      one card per row with its decisions, the highlighted text, and the
      count, which is the list length. */
  method RenderFeed(rows: seq<PostRecord>, shown: string) returns (view: FeedView)
    ensures |view.cards| == |rows|
    ensures forall i :: 0 <= i < |rows| ==> view.cards[i] == CardFor(rows[i], i)
    ensures view.postCount == |rows|
    ensures view.highlighted == HighlightedText(rows, shown)
  {
    var cards: seq<Card> := [];
    var highlightText: Option<string> := None;
    ghost var first: Option<nat> := None;
    for i := 0 to |rows|
      invariant |cards| == i
      invariant forall k :: 0 <= k < i ==> cards[k] == CardFor(rows[k], k)
      invariant first == FirstHighlight(rows[..i])
      invariant highlightText == if first.Some? then Some(rows[first.value].body) else None
    {
      var row := rows[i];
      var card := CardFor(row, i);
      ghost var done := cards;
      cards := cards + [card];
      forall k | 0 <= k <= i ensures cards[k] == CardFor(rows[k], k) {
        if k < i { assert cards[k] == done[k]; }
      }
      FirstHighlightExtend(rows, i);
      if row.highlight && highlightText.None? {
        highlightText := Some(row.body);
        first := Some(i);
      }
    }
    assert rows[..|rows|] == rows;
    var highlighted := if highlightText.Some? then highlightText.value else shown;
    view := FeedView(cards, highlighted, |rows|);
  }
}
