/** The height the input widget and its text box take when the document's
    height changes (the heightChanged handler of TextInputWidget). */
module Heights {
  import opened MinMax

  const MaxTextInputHeight: int := 120

  /** The widget's fixed height and the text box's fixed height. */
  datatype Heights = Heights(widget: int, textInput: int)

  /** `height` is the document height, `contentHeight` and `inputHeight` the
      heights the widget and the text box were given at construction. */
  function HeightsFor(height: int, contentHeight: int, inputHeight: int): (r: Heights)
    ensures r.widget <= MaxTextInputHeight
    ensures r.widget <= Max(height, contentHeight)
    ensures r.widget >= Min(MaxTextInputHeight, height)
    ensures r.widget >= Min(MaxTextInputHeight, contentHeight)
    ensures r.widget == MaxTextInputHeight || r.widget == height || r.widget == contentHeight
    ensures r.textInput < r.widget
    ensures r.textInput <= Max(height, inputHeight)
    ensures r.textInput >= Min(r.widget - 1, height)
    ensures r.textInput >= Min(r.widget - 1, inputHeight)
    ensures r.textInput == r.widget - 1 || r.textInput == height || r.textInput == inputHeight
  {
    var widgetHeight := Min(MaxTextInputHeight, Max(height, contentHeight));
    var textInputHeight := Min(widgetHeight - 1, Max(height, inputHeight));
    Heights(widgetHeight, textInputHeight)
  }

  /** A taller document never makes the widget or the text box shorter. */
  lemma HeightsMonotone(h1: int, h2: int, contentHeight: int, inputHeight: int)
    requires h1 <= h2
    ensures HeightsFor(h1, contentHeight, inputHeight).widget <=
            HeightsFor(h2, contentHeight, inputHeight).widget
    ensures HeightsFor(h1, contentHeight, inputHeight).textInput <=
            HeightsFor(h2, contentHeight, inputHeight).textInput
  {
  }

  /** With the construction-time heights in their usual order (the text box
      lower than the widget, the widget within the maximum), neither shrinks
      below its construction-time height. */
  lemma HeightsKeepMinimum(height: int, contentHeight: int, inputHeight: int)
    requires inputHeight < contentHeight <= MaxTextInputHeight
    ensures HeightsFor(height, contentHeight, inputHeight).widget >= contentHeight
    ensures HeightsFor(height, contentHeight, inputHeight).textInput >= inputHeight
  {
  }
}
