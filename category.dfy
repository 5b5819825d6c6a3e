/**
 * The keypad screen of one category (Category.java): digit buttons append
 * to a text buffer, and the action buttons "+", "-" and "C" add the buffer
 * to the running amount, subtract it, or drop its last character.  A
 * buffer that java.math.BigDecimal(String) rejects is cleared with an
 * "input is not valid" notice.
 */
module CategoryScreen {
  import opened Wrappers
  import opened Decimals
  import opened DecimalSyntax

  const ACTION_PLUS: string := "+"
  const ACTION_MINUS: string := "-"
  const ACTION_CLEAR: string := "C"

  /** The screen's state: the typed buffer and the running amount. */
  datatype Keypad = Keypad(input: string, amount: Decimal)

  /** An action press is refused with a notice: the buffer is non-empty and not a decimal. */
  predicate Rejects(k: Keypad) {
    k.input != [] && ParseDecimal(k.input).None?
  }

  /** The state after an action button labelled `action` (onActionButtonClick). */
  function OnAction(k: Keypad, action: string): (r: Keypad)
    ensures k.input == [] ==> r == k
    ensures Rejects(k) ==> r == Keypad([], k.amount)
    ensures k.input != [] && ParseDecimal(k.input).Some? && action == ACTION_PLUS ==>
      r.input == [] && Value(r.amount) == Value(k.amount) + Value(ParseDecimal(k.input).value)
    ensures k.input != [] && ParseDecimal(k.input).Some? && action == ACTION_MINUS ==>
      r.input == [] && Value(r.amount) == Value(k.amount) - Value(ParseDecimal(k.input).value)
    ensures k.input != [] && ParseDecimal(k.input).Some? && action == ACTION_CLEAR ==>
      r == Keypad(k.input[..|k.input| - 1], k.amount)
    ensures (k.input != [] && ParseDecimal(k.input).Some? &&
             action != ACTION_PLUS && action != ACTION_MINUS && action != ACTION_CLEAR) ==> r == k
    ensures ValidDecimal(k.amount) ==> ValidDecimal(r.amount)
  {
    if k.input == [] then k
    else match ParseDecimal(k.input)
      case None => Keypad([], k.amount)
      case Some(d) =>
        if action == ACTION_PLUS then Keypad([], Add(k.amount, d))
        else if action == ACTION_MINUS then Keypad([], Subtract(k.amount, d))
        else if action == ACTION_CLEAR then Keypad(k.input[..|k.input| - 1], k.amount)
        else k
  }

  /** A button press: a digit button (its text) or an action button (its label). */
  datatype Press = Digit(text: string) | Action(name: string)

  function Step(k: Keypad, p: Press): Keypad {
    match p
    case Digit(text) => Keypad(k.input + text, k.amount)
    case Action(name) => OnAction(k, name)
  }

  /** The state after a sequence of presses. */
  function Run(k: Keypad, presses: seq<Press>): Keypad
    decreases |presses|
  {
    if presses == [] then k else Run(Step(k, presses[0]), presses[1..])
  }

  /** A screen as onCreate leaves it: amount `new BigDecimal(0.0)`, empty buffer. */
  const Initial: Keypad := Keypad([], Zero)

  /** Running two sequences of presses one after the other. */
  lemma {:induction false} RunConcat(k: Keypad, first: seq<Press>, second: seq<Press>)
    ensures Run(k, first + second) == Run(Run(k, first), second)
    decreases |first|
  {
    if first == [] {
      assert first + second == second;
    } else {
      assert (first + second)[0] == first[0];
      assert (first + second)[1..] == first[1..] + second;
      RunConcat(Step(k, first[0]), first[1..], second);
    }
  }

  /** "+" or "-" on a buffer holding the decimal d adds or subtracts d and empties the buffer. */
  lemma CommitBuffer(k: Keypad, d: Decimal, minus: bool)
    requires k.input != [] && ParseDecimal(k.input) == Some(d)
    ensures OnAction(k, if minus then ACTION_MINUS else ACTION_PLUS)
         == Keypad([], if minus then Subtract(k.amount, d) else Add(k.amount, d))
  {
  }

  /** Typing the text of a decimal d into an empty buffer and pressing "+" or "-" commits d. */
  lemma Commit(k: Keypad, text: string, d: Decimal, minus: bool)
    requires k.input == [] && text != [] && ParseDecimal(text) == Some(d)
    ensures Run(k, [Digit(text), Action(if minus then ACTION_MINUS else ACTION_PLUS)])
         == Keypad([], if minus then Subtract(k.amount, d) else Add(k.amount, d))
  {
    var typed := Keypad(text, k.amount);
    RunTwo(k, Digit(text), Action(if minus then ACTION_MINUS else ACTION_PLUS));
    assert Step(k, Digit(text)) == typed;
    CommitBuffer(typed, d, minus);
  }

  /** Running two presses is stepping twice. */
  lemma RunTwo(k: Keypad, p: Press, q: Press)
    ensures Run(k, [p, q]) == Step(Step(k, p), q)
  {
    var once, twice := Step(k, p), Step(Step(k, p), q);
    assert [p, q][1..] == [q];
    assert [q][1..] == [];
    assert Run(twice, []) == twice;
    assert Run(once, [q]) == Run(twice, []);
  }

  /** Running four presses is running the first two, then the last two. */
  lemma RunTwoPairs(k: Keypad, p1: Press, q1: Press, p2: Press, q2: Press)
    ensures Run(k, [p1, q1, p2, q2]) == Run(Run(k, [p1, q1]), [p2, q2])
  {
    assert [p1, q1] + [p2, q2] == [p1, q1, p2, q2];
    RunConcat(k, [p1, q1], [p2, q2]);
  }

  /** One digit press per button text, in order. */
  function DigitPresses(texts: seq<string>): (r: seq<Press>)
    ensures |r| == |texts|
    ensures forall i :: 0 <= i < |texts| ==> r[i] == Digit(texts[i])
  {
    if texts == [] then [] else [Digit(texts[0])] + DigitPresses(texts[1..])
  }

  /** The button texts written one after the other. */
  function Joined(texts: seq<string>): string {
    if texts == [] then [] else texts[0] + Joined(texts[1..])
  }

  /** Pressing digit buttons one at a time appends their texts in order and keeps the amount. */
  lemma {:induction false} TypeButtons(k: Keypad, texts: seq<string>)
    ensures Run(k, DigitPresses(texts)) == Keypad(k.input + Joined(texts), k.amount)
    decreases |texts|
  {
    if texts == [] {
      assert k.input + [] == k.input;
    } else {
      var presses := DigitPresses(texts);
      assert presses[1..] == DigitPresses(texts[1..]);
      TypeButtons(Keypad(k.input + texts[0], k.amount), texts[1..]);
      assert (k.input + texts[0]) + Joined(texts[1..]) == k.input + Joined(texts);
    }
  }

  /** Two digit presses leave the same state as one press of both texts together. */
  lemma TypeTwoButtons(k: Keypad, a: string, b: string)
    ensures Run(k, [Digit(a), Digit(b)]) == Run(k, [Digit(a + b)])
  {
    assert DigitPresses([a, b]) == [Digit(a), Digit(b)];
    assert DigitPresses([a + b]) == [Digit(a + b)];
    assert Joined([a, b]) == a + b by {
      assert Joined([a, b][1..]) == b + Joined([]);
      assert b + [] == b;
    }
    assert Joined([a + b]) == a + b by {
      assert (a + b) + [] == a + b;
    }
    TypeButtons(k, [a, b]);
    TypeButtons(k, [a + b]);
  }

  /** Running one press is one step. */
  lemma RunOne(k: Keypad, p: Press)
    ensures Run(k, [p]) == Step(k, p)
  {
    assert [p][1..] == [];
  }

  /**
   * Pressing digit buttons one at a time into an empty buffer, then "+" or
   * "-", commits exactly the decimal the typed text parses to.
   */
  lemma TypeButtonsAndCommit(k: Keypad, texts: seq<string>, d: Decimal, minus: bool)
    requires k.input == [] && Joined(texts) != [] && ParseDecimal(Joined(texts)) == Some(d)
    ensures Run(k, DigitPresses(texts) + [Action(if minus then ACTION_MINUS else ACTION_PLUS)])
         == Keypad([], if minus then Subtract(k.amount, d) else Add(k.amount, d))
  {
    var action := Action(if minus then ACTION_MINUS else ACTION_PLUS);
    var typed := Keypad(Joined(texts), k.amount);
    RunConcat(k, DigitPresses(texts), [action]);
    TypeButtons(k, texts);
    assert k.input + Joined(texts) == Joined(texts);
    RunOne(typed, action);
    CommitBuffer(typed, d, minus);
  }

  /**
   * Typing a number in full and pressing "+" (or "-") adds (or subtracts)
   * exactly the number typed and leaves the buffer empty.
   */
  lemma TypeAndCommit(k: Keypad, lit: Literal, minus: bool)
    requires k.input == [] && WellFormed(lit) && Evaluate(lit).Some?
    ensures var r := Run(k, [Digit(Render(lit)), Action(if minus then ACTION_MINUS else ACTION_PLUS)]);
      && r.input == []
      && Value(r.amount) == if minus then Value(k.amount) - Value(Evaluate(lit).value)
                            else Value(k.amount) + Value(Evaluate(lit).value)
  {
    ParseRender(lit);
    assert |Render(lit)| >= |MantissaText(lit)| > 0;
    Commit(k, Render(lit), Evaluate(lit).value, minus);
  }

  lemma ParseTenTen(s: string)
    requires s == "10.10"
    ensures ParseDecimal(s) == Some(Decimal(1010, 2))
  {
    var ten := TenTenText(s);
    PointParse(ten, ten);
  }

  /** "10.10" is "10", a point and "10", whose four digits write 1010. */
  lemma TenTenText(s: string) returns (ten: string)
    requires s == "10.10"
    ensures ten == ['1', '0'] && s == ten + ['.'] + ten
    ensures AllDigits(ten + ten) && DigitsValue(ten + ten) == 1010
  {
    ten := ['1', '0'];
    assert s == ten + ['.'] + ten;
    TenValue(ten);
    DigitsValueAppend(ten, ten);
    assert ShiftLeft(10, 2) == 1000;
  }

  /** "10" writes 10. */
  lemma TenValue(ten: string)
    requires ten == ['1', '0']
    ensures AllDigits(ten) && DigitsValue(ten) == 10
  {
    DigitsValueSnoc([], '1');
    assert [] + ['1'] == ['1'];
    DigitsValueSnoc(['1'], '0');
    assert ['1'] + ['0'] == ten;
  }

  lemma ParseFiveHundredths(s: string)
    requires s == "0.05"
    ensures ParseDecimal(s) == Some(Decimal(5, 2))
  {
    var zero, five := FiveHundredthsText(s);
    PointParse(zero, five);
  }

  /** "0.05" is "0", a point and "05", whose three digits write 5. */
  lemma FiveHundredthsText(s: string) returns (zero: string, five: string)
    requires s == "0.05"
    ensures zero == ['0'] && five == ['0', '5'] && s == zero + ['.'] + five
    ensures AllDigits(zero + five) && DigitsValue(zero + five) == 5
  {
    zero, five := ['0'], ['0', '5'];
    assert zero + five == ['0', '0'] + ['5'];
    ZerosValue(['0', '0']);
    DigitsValueSnoc(['0', '0'], '5');
  }

  /**
   * From a fresh screen, typing d1, "+", d2, "+" leaves exactly d1 + d2 in
   * the amount: the sum is exact, with no binary rounding.
   */
  lemma TwoCommits(x: string, y: string, dx: Decimal, dy: Decimal)
    requires x != [] && ParseDecimal(x) == Some(dx)
    requires y != [] && ParseDecimal(y) == Some(dy)
    ensures var r := Run(Initial, [Digit(x), Action(ACTION_PLUS), Digit(y), Action(ACTION_PLUS)]);
      r == Keypad([], Add(Add(Zero, dx), dy)) && Value(r.amount) == Value(dx) + Value(dy)
  {
    RunTwoPairs(Initial, Digit(x), Action(ACTION_PLUS), Digit(y), Action(ACTION_PLUS));
    Commit(Initial, x, dx, false);
    Commit(Keypad([], Add(Zero, dx)), y, dy, false);
  }

  /** The worked example: "10.10" then "0.05", both added, give exactly 10.15. */
  lemma AddingTwoAmounts(x: string, y: string)
    requires x == "10.10" && y == "0.05"
    ensures Value(Run(Initial, [Digit(x), Action(ACTION_PLUS), Digit(y), Action(ACTION_PLUS)]).amount) == 10.15
  {
    ParseTenTen(x);
    ParseFiveHundredths(y);
    TwoCommits(x, y, Decimal(1010, 2), Decimal(5, 2));
    assert Value(Decimal(1010, 2)) == 10.10;
    assert Value(Decimal(5, 2)) == 0.05;
  }

  /** "C" on a valid buffer drops its last character. */
  lemma ClearValid(s: string, d: Decimal, a: Decimal)
    requires s != [] && ParseDecimal(s) == Some(d)
    ensures OnAction(Keypad(s, a), ACTION_CLEAR) == Keypad(s[..|s| - 1], a)
  {
  }

  /** "C" on the buffer "12" leaves "1"; "C" on an empty buffer does nothing. */
  lemma ClearLastDigit(s: string, a: Decimal)
    requires s == "12"
    ensures OnAction(Keypad(s, a), ACTION_CLEAR) == Keypad("1", a)
    ensures OnAction(Keypad([], a), ACTION_CLEAR) == Keypad([], a)
  {
    TwelveText(s);
    DigitsParse(s);
    ClearValid(s, Decimal(DigitsValue(s), 0), a);
  }

  /** "12" is two digits, and dropping its last character leaves "1". */
  lemma TwelveText(s: string)
    requires s == "12"
    ensures |s| == 2 && AllDigits(s) && s[..|s| - 1] == "1"
  {
  }

  /** "12a" then "+" clears the buffer, keeps the amount and shows the notice. */
  lemma InvalidBufferIsDropped(s: string, a: Decimal)
    requires s == "12a"
    ensures Rejects(Keypad(s, a))
    ensures OnAction(Keypad(s, a), ACTION_PLUS) == Keypad([], a)
  {
    RejectsForeignCharacter(s, 2);
  }

  /** The screen object: its fields are updated in place by the button handlers. */
  class Category {
    var category: string
    var amount: Decimal
    var input: string

    function State(): Keypad
      reads this
    {
      Keypad(input, amount)
    }

    /** onCreate: the category comes from the starting intent; the amount starts at zero. */
    constructor (category: string)
      ensures this.category == category
      ensures State() == Initial && Value(amount) == 0.0
    {
      this.category := category;
      amount := Zero;
      input := [];
    }

    /** changeInputValue: a digit button appends its text to the buffer. */
    method ChangeInputValue(num: string)
      modifies this
      ensures input == old(input) + num
      ensures amount == old(amount) && category == old(category)
    {
      input := input + num;
    }

    /** onActionButtonClick; `invalidNotice` is the "Input is not valid" toast. */
    method OnActionButtonClick(action: string) returns (invalidNotice: bool)
      modifies this
      ensures State() == OnAction(old(State()), action)
      ensures invalidNotice == Rejects(old(State()))
      ensures category == old(category)
    {
      invalidNotice := false;
      if |input| == 0 {
        return;
      }
      var valid := IsInputValid();
      if !valid {
        invalidNotice := true;
        ClearInput();
        return;
      }
      if action == ACTION_PLUS {
        Plus();
      } else if action == ACTION_MINUS {
        Minus();
      } else if action == ACTION_CLEAR {
        ClearDigit();
      }
    }

    /** clearDigit: drops the last character of a non-empty buffer. */
    method ClearDigit()
      modifies this
      ensures input == if old(input) == [] then [] else old(input)[..|old(input)| - 1]
      ensures amount == old(amount) && category == old(category)
    {
      var length := |input|;
      if length > 0 {
        input := input[..length - 1];
      }
    }

    /** plus: adds the buffer's value to the amount and clears the buffer. */
    method Plus()
      requires ParseDecimal(input).Some?
      modifies this
      ensures amount == Add(old(amount), ParseDecimal(old(input)).value)
      ensures Value(amount) == Value(old(amount)) + Value(ParseDecimal(old(input)).value)
      ensures input == [] && category == old(category)
    {
      var inputNumber := ParseDecimal(input).value;
      amount := Add(amount, inputNumber);
      ClearInput();
    }

    /** minus: subtracts the buffer's value from the amount and clears the buffer. */
    method Minus()
      requires ParseDecimal(input).Some?
      modifies this
      ensures amount == Subtract(old(amount), ParseDecimal(old(input)).value)
      ensures Value(amount) == Value(old(amount)) - Value(ParseDecimal(old(input)).value)
      ensures input == [] && category == old(category)
    {
      var inputNumber := ParseDecimal(input).value;
      amount := Subtract(amount, inputNumber);
      ClearInput();
    }

    /** clearInput: empties the buffer. */
    method ClearInput()
      modifies this
      ensures input == [] && amount == old(amount) && category == old(category)
    {
      input := [];
    }

    /** isInputValid: whether `new BigDecimal(input)` succeeds. */
    method IsInputValid() returns (valid: bool)
      ensures valid <==> ParseDecimal(input).Some?
    {
      valid := ParseDecimal(input).Some?;
    }
  }
}
