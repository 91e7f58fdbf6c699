/** The part of the page's global `appState` that the main page's handlers
    update in place: the two mood sliders, the selected keyword, the keyword
    chips on offer and the primary colour. */
module AppStateModel {
  import opened HexColor
  import opened Mood

  /** The selection after the chips were rebuilt from `offered`: a keyword
      no longer offered is cleared, any other is kept. */
  function Retained(selected: string, offered: seq<string>): (kept: string)
    ensures kept == "" || kept in offered
    ensures selected in offered ==> kept == selected
    ensures kept == selected || kept == ""
  {
    if selected in offered then selected else ""
  }

  /** Dropping a selection only happens when it is not on offer. */
  lemma RetainedClearsOnlyMissing(selected: string, offered: seq<string>)
    ensures Retained(selected, offered) == "" && selected != "" <==> selected != "" && selected !in offered
  {
  }

  /** What the native colour picker reports: `#` and six lower-case digits. */
  predicate IsPickerValue(s: string)
  {
    |s| == 7 && s[0] == '#' && AllLowerHex(s[1..])
  }

  class AppState {
    var soft: int
    var staticMood: int
    var keyword: string
    var chips: seq<string>
    var primaryColor: string

    /** The primary colour is unset or a colour the decoder accepts. */
    predicate ColorValid()
      reads this
    {
      primaryColor == "" || IsHexColorInput(primaryColor)
    }

    /** The selected keyword is none or one of the chips shown. */
    predicate SelectionOffered()
      reads this
    {
      keyword == "" || keyword in chips
    }

    /** The colour sent with a generation request,
        `appState.primaryColor || null`: none when unset, otherwise a colour
        the decoder reads as six digits. */
    function RequestedColor(): (color: Option<string>)
      reads this
      requires ColorValid()
      ensures color.None? <==> primaryColor == ""
      ensures color.Some? ==> Decodable(color.value) && |ExpandedDigits(color.value)| == 6
    {
      if primaryColor == "" then None
      else
        HexColorInputDecodable(primaryColor);
        Some(primaryColor)
    }

    /** The initial `appState`: sliders at 50, nothing selected, no colour,
        no chips yet. */
    constructor ()
      ensures soft == 50 && staticMood == 50
      ensures keyword == "" && chips == [] && primaryColor == ""
      ensures ColorValid() && SelectionOffered()
    {
      soft := 50;
      staticMood := 50;
      keyword := "";
      chips := [];
      primaryColor := "";
    }

    /** A slider's `input` event stores its integer value. */
    method SetSoft(value: int)
      modifies this
      ensures soft == value
      ensures staticMood == old(staticMood) && keyword == old(keyword)
      ensures chips == old(chips) && primaryColor == old(primaryColor)
    {
      soft := value;
    }

    method SetStatic(value: int)
      modifies this
      ensures staticMood == value
      ensures soft == old(soft) && keyword == old(keyword)
      ensures chips == old(chips) && primaryColor == old(primaryColor)
    {
      staticMood := value;
    }

    /** `updateKeywordChips()`: clear the chips, show one chip per keyword of
        the current mood, then drop the selection if it is not among them.
        When the resolver returns `undefined` the `forEach` throws after the
        chips were cleared: `ok` is false, the chips are gone and the
        selection is left as it was. */
    method UpdateKeywordChips(kb: KnowledgeBase) returns (ok: bool)
      modifies this
      ensures soft == old(soft) && staticMood == old(staticMood) && primaryColor == old(primaryColor)
      ensures ok <==> GetKeywordsFromMood(kb, soft, staticMood).Some?
      ensures ok ==> chips == GetKeywordsFromMood(kb, soft, staticMood).value
      ensures ok ==> keyword == Retained(old(keyword), chips)
      ensures !ok ==> chips == [] && keyword == old(keyword)
      ensures ok ==> SelectionOffered()
    {
      var keywords := GetKeywordsFromMood(kb, soft, staticMood);
      chips := [];
      if keywords.None? {
        return false;
      }
      chips := keywords.value;
      if keyword !in keywords.value {
        keyword := "";
      }
      return true;
    }

    /** Clicking a chip selects its keyword. */
    method ClickChip(i: nat)
      requires i < |chips|
      modifies this
      ensures chips == old(chips) && keyword == chips[i]
      ensures soft == old(soft) && staticMood == old(staticMood) && primaryColor == old(primaryColor)
      ensures SelectionOffered()
    {
      keyword := chips[i];
    }

    /** The text field's `input` event: a value the regexes accept
        (`IsHexColorInput`) becomes the primary colour, anything else is
        ignored. */
    method OnColorInput(hex: string)
      modifies this
      ensures primaryColor == (if IsHexColorInput(hex) then hex else old(primaryColor))
      ensures soft == old(soft) && staticMood == old(staticMood)
      ensures keyword == old(keyword) && chips == old(chips)
      ensures old(ColorValid()) ==> ColorValid()
    {
      if IsHexColorInput(hex) {
        primaryColor := hex;
      }
    }

    /** The colour picker's `input` event stores the picker's value. */
    method OnColorPick(hex: string)
      requires IsPickerValue(hex)
      modifies this
      ensures primaryColor == hex
      ensures soft == old(soft) && staticMood == old(staticMood)
      ensures keyword == old(keyword) && chips == old(chips)
      ensures ColorValid()
    {
      primaryColor := hex;
      forall i | 0 <= i < |hex[1..]| ensures IsHexDigit(hex[1..][i]) {
        assert IsLowerHexDigit(hex[1..][i]);
      }
    }
  }
}
