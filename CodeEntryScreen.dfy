/**
 * The input rules of the code-entry screen: which edits of the hidden code
 * field are accepted (and uppercased), when the verify button calls the
 * view model, and what each of the six digit boxes shows.
 *
 * Letters, digits, uppercasing and blankness are taken over ASCII.
 */
module CodeEntryScreen {
  import opened Model
  import opened KeyOrder
  import opened Repository
  import opened CodeEntry

  /** `isLetterOrDigit`, over ASCII. A letter or digit is never whitespace. */
  predicate IsLetterOrDigit(c: char): (b: bool)
    ensures b ==> !IsWhitespace(c)
  {
    ('A' <= c <= 'Z') || ('a' <= c <= 'z') || ('0' <= c <= '9')
  }

  /** `isWhitespace`, over ASCII: space, tab to carriage return, and the four separators. */
  predicate IsWhitespace(c: char)
  {
    c == ' ' || ('\t' <= c <= '\r') || (28 <= c as int <= 31)
  }

  /** `isBlank`: empty or only whitespace, so a blank text holds no letter or digit. */
  predicate IsBlank(s: string): (b: bool)
    ensures s == [] ==> b
    ensures b ==> forall i :: 0 <= i < |s| ==> !IsLetterOrDigit(s[i])
  {
    forall i :: 0 <= i < |s| ==> IsWhitespace(s[i])
  }

  /** `uppercaseChar`, over ASCII. */
  function ToUpper(c: char): (u: char)
    ensures 'a' <= c <= 'z' ==> 'A' <= u <= 'Z' && u as int == c as int - 32
    ensures !('a' <= c <= 'z') ==> u == c
  {
    if 'a' <= c <= 'z' then (c as int - 32) as char else c
  }

  /** `uppercase()`, character by character. */
  function Uppercase(s: string): (r: string)
    ensures |r| == |s|
    ensures forall i :: 0 <= i < |s| ==> r[i] == ToUpper(s[i])
  {
    if s == [] then [] else [ToUpper(s[0])] + Uppercase(s[1..])
  }

  /**
   * The field accepts an edit of at most six letters or digits; uppercasing
   * an accepted edit keeps it within six characters and free of whitespace.
   */
  predicate AcceptsCode(newCode: string): (ok: bool)
    ensures ok ==> |Uppercase(newCode)| <= CoupleCodeLength
    ensures ok ==> forall i :: 0 <= i < |newCode| ==> !IsWhitespace(newCode[i])
  {
    |newCode| <= CoupleCodeLength && forall i :: 0 <= i < |newCode| ==> IsLetterOrDigit(newCode[i])
  }

  /** What the code field can hold: at most six symbols of the pairing alphabet. */
  predicate IsCodeText(code: string)
  {
    |code| <= CoupleCodeLength && forall i :: 0 <= i < |code| ==> code[i] in CoupleCodeChars
  }

  lemma UpperInAlphabet(c: char)
    requires IsLetterOrDigit(c)
    ensures ToUpper(c) in CoupleCodeChars
  {
    var u := ToUpper(c);
    if 'A' <= u <= 'Z' {
      assert CoupleCodeChars[(u as int) - ('A' as int)] == u;
    } else {
      assert CoupleCodeChars[26 + (u as int) - ('0' as int)] == u;
    }
  }

  /** An accepted edit, once uppercased, is code text. */
  lemma AcceptedIsCodeText(newCode: string)
    requires AcceptsCode(newCode)
    ensures IsCodeText(Uppercase(newCode))
  {
    forall i | 0 <= i < |newCode| ensures Uppercase(newCode)[i] in CoupleCodeChars {
      UpperInAlphabet(newCode[i]);
    }
  }

  /** Only the letters and digits a code can contain get through the field. */
  lemma CodeTextIsAccepted(code: string)
    requires IsCodeText(code)
    ensures AcceptsCode(code) && Uppercase(code) == code
  {
    forall i | 0 <= i < |code| ensures IsLetterOrDigit(code[i]) && ToUpper(code[i]) == code[i] {
      AlphabetIsUpperOrDigit(code[i]);
    }
  }

  /** The pairing alphabet holds upper-case letters and digits only. */
  lemma AlphabetIsUpperOrDigit(c: char)
    requires c in CoupleCodeChars
    ensures 'A' <= c <= 'Z' || '0' <= c <= '9'
  {
    var j :| 0 <= j < |CoupleCodeChars| && CoupleCodeChars[j] == c;
  }

  /**
   * The verify handler's guard: a full code and a name that is not blank.
   * Code text that passes it is a complete couple code, and the name is not empty.
   */
  predicate CanVerify(code: string, girlName: string): (ok: bool)
    ensures ok ==> girlName != []
    ensures ok && IsCodeText(code) ==> IsCoupleCode(code)
  {
    |code| == CoupleCodeLength && !IsBlank(girlName)
  }

  /**
   * The button is enabled when the guard holds and no redemption is running:
   * a click on it always passes the guard, and while idle the two agree.
   */
  predicate VerifyButtonEnabled(code: string, girlName: string, isLoading: bool): (enabled: bool)
    ensures enabled ==> CanVerify(code, girlName)
    ensures isLoading ==> !enabled
    ensures !isLoading ==> (enabled <==> CanVerify(code, girlName))
  {
    CanVerify(code, girlName) && !isLoading
  }

  /**
   * A click on the enabled button always reaches the view model, and it
   * sends a code the generator could have produced.
   */
  lemma EnabledButtonSendsCoupleCode(code: string, girlName: string, isLoading: bool)
    requires IsCodeText(code)
    requires VerifyButtonEnabled(code, girlName, isLoading)
    ensures CanVerify(code, girlName) && IsCoupleCode(code)
  {
  }

  /** Digit box `index`: the code's character there, or nothing, and whether it has the focus. */
  function DigitBox(code: string, index: nat): (box: (string, bool))
    ensures index < |code| ==> box.0 == [code[index]]
    ensures index >= |code| ==> box.0 == ""
    ensures box.1 <==> index == |code|
  {
    (if index < |code| then [code[index]] else "", index == |code|)
  }

  /** The texts of the first `n` digit boxes, side by side. */
  function BoxTexts(code: string, n: nat): string
  {
    if n == 0 then "" else BoxTexts(code, n - 1) + DigitBox(code, n - 1).0
  }

  /** The six boxes spell out the code. */
  lemma {:induction false} BoxesSpellCode(code: string, n: nat)
    requires n <= |code|
    ensures BoxTexts(code, n) == code[..n]
  {
    if n > 0 {
      BoxesSpellCode(code, n - 1);
      assert code[..n] == code[..n - 1] + [code[n - 1]];
    }
  }

  lemma {:induction false} BoxesPastCodeAreEmpty(code: string, n: nat)
    requires |code| <= n
    ensures BoxTexts(code, n) == code
  {
    if n > |code| {
      BoxesPastCodeAreEmpty(code, n - 1);
    } else {
      BoxesSpellCode(code, n);
      assert code[..n] == code;
    }
  }

  /** A code shorter than six has exactly one focused box; a full code has none. */
  lemma FocusedBox(code: string)
    requires IsCodeText(code)
    ensures |code| < CoupleCodeLength ==> exists i :: 0 <= i < CoupleCodeLength && DigitBox(code, i).1
    ensures forall i, j :: 0 <= i < j < CoupleCodeLength ==> !(DigitBox(code, i).1 && DigitBox(code, j).1)
    ensures |code| == CoupleCodeLength ==> forall i :: 0 <= i < CoupleCodeLength ==> !DigitBox(code, i).1
  {
    if |code| < CoupleCodeLength {
      assert DigitBox(code, |code|).1;
    }
  }

  /** The state the screen keeps: the code field and the name field. */
  class CodeEntryScreenState {
    var code: string
    var girlName: string

    ghost predicate Valid()
      reads this
    {
      IsCodeText(code)
    }

    constructor ()
      ensures code == "" && girlName == ""
      ensures Valid()
    {
      code, girlName := "", "";
    }

    /** `onValueChange` of the hidden code field. */
    method OnCodeValueChange(newCode: string)
      requires Valid()
      modifies this
      ensures Valid()
      ensures code == if AcceptsCode(newCode) then Uppercase(newCode) else old(code)
      ensures girlName == old(girlName)
    {
      if AcceptsCode(newCode) {
        AcceptedIsCodeText(newCode);
        code := Uppercase(newCode);
      }
    }

    /** `onValueChange` of the name field. */
    method OnNameValueChange(newName: string)
      requires Valid()
      modifies this
      ensures Valid()
      ensures girlName == newName && code == old(code)
    {
      girlName := newName;
    }

    /**
     * The verify button's click handler: redeems the code through `viewModel`
     * when the guard holds. The flags and `deviceToken` are passed on to the
     * view model's repository calls.
     */
    method OnVerifyClick(viewModel: CodeEntryViewModel, lookupOk: bool, createOk: bool, deviceToken: string,
                         linkOk: bool, now: Instant)
      returns (invoked: bool, ghost girlId: Key)
      requires Valid()
      modifies viewModel, viewModel.repository
      ensures invoked == CanVerify(code, girlName)
      ensures invoked ==> IsCoupleCode(code)
      ensures invoked ==>
                (viewModel.uiState, viewModel.repository.users, viewModel.repository.anniversaries)
                == Redemption(old(viewModel.uiState).(isLoading := true, errorMessage := ""),
                              old(viewModel.repository.anniversaries), old(viewModel.repository.users),
                              code, girlName, lookupOk, createOk, deviceToken, linkOk, girlId, now)
      ensures invoked ==> viewModel.states == old(viewModel.states)
                            + [old(viewModel.uiState).(isLoading := true, errorMessage := ""), viewModel.uiState]
      ensures !invoked ==> viewModel.uiState == old(viewModel.uiState) && viewModel.states == old(viewModel.states)
      ensures !invoked ==> viewModel.repository.anniversaries == old(viewModel.repository.anniversaries)
                           && viewModel.repository.users == old(viewModel.repository.users)
      ensures viewModel.repository.wishes == old(viewModel.repository.wishes)
      ensures viewModel.repository.deliveryStatus == old(viewModel.repository.deliveryStatus)
      ensures old(viewModel.repository.Valid()) ==> viewModel.repository.Valid()
    {
      invoked := |code| == CoupleCodeLength && !IsBlank(girlName);
      girlId := "";
      if invoked {
        girlId := viewModel.VerifyCode(code, girlName, lookupOk, createOk, deviceToken, linkOk, now);
      }
    }
  }
}
