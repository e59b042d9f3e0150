/**
 * The typing screen (src/components/reader/TypingInterface.tsx): how the text
 * is drawn around the cursor, and the context menu that turns a selection
 * into a highlight of the running session.
 */
module TypingInterface {
  import opened Types
  import Text
  import TypingTest

  /** `content.substring(0, currentPosition)`. */
  function TypedText(content: string, pos: int): string {
    Text.Substring(content, 0, pos)
  }

  /** `content.substring(currentPosition)`. */
  function RemainingText(content: string, pos: int): string {
    Text.Substring(content, pos, |content|)
  }

  /** The typed part and the remaining part make up the whole text, for any cursor. */
  lemma TypedThenRemaining(content: string, pos: int)
    ensures TypedText(content, pos) + RemainingText(content, pos) == content
    ensures |TypedText(content, pos)| == Text.ClampIndex(pos, |content|)
  {
    var c := Text.ClampIndex(pos, |content|);
    assert TypedText(content, pos) == content[..c];
    assert RemainingText(content, pos) == content[c..];
  }

  /** `index >= h.position && index < h.position + h.text.length`. */
  predicate Covers(h: Highlight, i: int) {
    h.position <= i < h.position + |h.text|
  }

  /** `highlights.some(h => covers(h, i))`. */
  function AnyCovers(highlights: seq<Highlight>, i: int): (r: bool)
    ensures r <==> exists k :: 0 <= k < |highlights| && Covers(highlights[k], i)
  {
    if highlights == [] then false
    else Covers(highlights[0], i) || AnyCovers(highlights[1..], i)
  }

  /** A highlight with empty text marks no index. */
  lemma EmptyHighlightMarksNothing(h: Highlight, i: int)
    requires h.text == []
    ensures !Covers(h, i)
  {
  }

  /** One typed character and its two marks. */
  datatype Glyph = Glyph(ch: char, mistake: bool, highlighted: bool)

  /** What `renderText` draws: marked glyphs up to the cursor, then the plain remaining text. */
  datatype Rendered = Rendered(typed: seq<Glyph>, remaining: string)

  function Chars(glyphs: seq<Glyph>): (r: string)
    ensures |r| == |glyphs| && forall i :: 0 <= i < |r| ==> r[i] == glyphs[i].ch
  {
    seq(|glyphs|, i requires 0 <= i < |glyphs| => glyphs[i].ch)
  }

  /**
   * `renderText`: a typed index is drawn red exactly when it is a recorded
   * mistake and shaded exactly when some article highlight covers it; the text
   * past the cursor carries no marks.
   */
  function RenderText(content: string, s: TypingTest.TypingState, highlights: seq<Highlight>): (r: Rendered)
    ensures Chars(r.typed) + r.remaining == content
    ensures |r.typed| == Text.ClampIndex(s.currentPosition, |content|) && |r.typed| <= s.currentPosition
    ensures forall i :: 0 <= i < |r.typed| ==> (r.typed[i].mistake <==> i in s.mistakes)
    ensures forall i :: 0 <= i < |r.typed| ==>
      (r.typed[i].highlighted <==> exists k :: 0 <= k < |highlights| && Covers(highlights[k], i))
  {
    var typed := TypedText(content, s.currentPosition);
    TypedThenRemaining(content, s.currentPosition);
    var glyphs := seq(|typed|, i requires 0 <= i < |typed| => Glyph(typed[i], i in s.mistakes, AnyCovers(highlights, i)));
    assert Chars(glyphs) == typed;
    Rendered(glyphs, RemainingText(content, s.currentPosition))
  }

  // ---------------------------------------------------------------------------
  // The context menu

  class ContextMenu {
    var visible: bool
    var x: int
    var y: int
    /** The selection captured when the menu opened; never cleared afterwards. */
    var selectedText: string

    constructor()
      ensures !visible && x == 0 && y == 0 && selectedText == []
    {
      visible, x, y, selectedText := false, 0, 0, [];
    }

    /** `handleContextMenu`: a non-empty selection opens the menu at the pointer. */
    method Open(selection: Option<string>, clientX: int, clientY: int)
      modifies this
      ensures selection.Some? && selection.value != [] ==>
        visible && x == clientX && y == clientY && selectedText == selection.value
      ensures !(selection.Some? && selection.value != []) ==>
        visible == old(visible) && x == old(x) && y == old(y) && selectedText == old(selectedText)
    {
      if selection.Some? && selection.value != [] {
        selectedText := selection.value;
        visible, x, y := true, clientX, clientY;
      }
    }

    /** `setContextMenu({ visible: false, x: 0, y: 0 })`. */
    method Hide()
      modifies this
      ensures !visible && x == 0 && y == 0 && selectedText == old(selectedText)
    {
      visible, x, y := false, 0, 0;
    }
  }

  /** `selectedText || window.getSelection()?.toString()`, with an absent selection read as empty. */
  function ChosenSelection(selectedText: string, windowSelection: Option<string>): (r: string)
    ensures selectedText != [] ==> r == selectedText
    ensures selectedText == [] && windowSelection.Some? ==> r == windowSelection.value
    ensures selectedText == [] && windowSelection.None? ==> r == []
  {
    if selectedText != [] then selectedText
    else if windowSelection.Some? then windowSelection.value
    else []
  }

  /**
   * `handleHighlightSelection`: a non-empty selection becomes one new last
   * highlight anchored at the cursor (not at the selection), and the menu
   * closes either way.
   */
  method HandleHighlightSelection(
    session: TypingTest.TypingSession, menu: ContextMenu, windowSelection: Option<string>,
    id: string, dateCreated: string)
    requires session.Valid()
    modifies session, menu
    ensures session.State() == TypingTest.WithHighlight(
      old(session.State()), ChosenSelection(old(menu.selectedText), windowSelection),
      old(session.currentPosition), id, dateCreated)
    ensures session.Valid()
    ensures !menu.visible && menu.x == 0 && menu.y == 0 && menu.selectedText == old(menu.selectedText)
  {
    var selection := ChosenSelection(menu.selectedText, windowSelection);
    session.AddHighlight(selection, session.currentPosition, id, dateCreated);
    menu.Hide();
  }

  /** `handleCopyText`: the clipboard write is not modelled; the menu closes. */
  method HandleCopyText(menu: ContextMenu)
    modifies menu
    ensures !menu.visible && menu.x == 0 && menu.y == 0 && menu.selectedText == old(menu.selectedText)
  {
    menu.Hide();
  }

  /** A selection adds exactly one highlight, at the cursor; an empty one adds none. */
  lemma HighlightSelectionCount(s: TypingTest.TypingState, selection: string, id: string, dateCreated: string)
    ensures var r := TypingTest.WithHighlight(s, selection, s.currentPosition, id, dateCreated);
      && |r.highlights| == |s.highlights| + (if selection == [] then 0 else 1)
      && (selection != [] ==> r.highlights[|s.highlights|].position == s.currentPosition)
      && r.currentPosition == s.currentPosition && r.mistakes == s.mistakes
  {
  }
}
