/**
 * The attendance choice on the reservation form: a row of buttons, each
 * carrying a value, and a hidden input that holds the chosen value. A click
 * copies the button's value into the input and makes that button the only
 * active one. On the jQuery page the click also shows the guest-count field
 * unless the value is "no". The plain page leaves that field alone.
 */
module Attendance {
  import opened Pages

  datatype Button = Button(value: string, active: bool)

  /** The parts of the form the buttons touch. */
  datatype Form = Form(
    input: string,          // the hidden `#attd_attendance` value
    buttons: seq<Button>,
    guestsShown: bool       // whether the guest-count field and its label are visible
  )

  /** How many buttons carry the active class. */
  function ActiveCount(bs: seq<Button>): (k: nat)
    ensures k <= |bs|
    ensures k == 0 <==> forall j :: 0 <= j < |bs| ==> !bs[j].active
  {
    if |bs| == 0 then 0
    else
      assert forall j :: 0 < j < |bs| ==> bs[1..][j - 1] == bs[j];
      (if bs[0].active then 1 else 0) + ActiveCount(bs[1..])
  }

  /** The click handler of button `i`. */
  function Click(page: Page, f: Form, i: nat): (g: Form)
    requires i < |f.buttons|
    ensures g.input == f.buttons[i].value
    ensures |g.buttons| == |f.buttons|
    ensures forall j :: 0 <= j < |g.buttons| ==> g.buttons[j].value == f.buttons[j].value
    ensures forall j :: 0 <= j < |g.buttons| ==> (g.buttons[j].active <==> j == i)
    ensures page == JQueryPage ==> (g.guestsShown <==> f.buttons[i].value != "no")
    ensures page == PlainPage ==> g.guestsShown == f.guestsShown
  {
    var bs := seq(|f.buttons|, j requires 0 <= j < |f.buttons| => f.buttons[j].(active := j == i));
    var shown := match page
      case JQueryPage => f.buttons[i].value != "no"
      case PlainPage => f.guestsShown;
    Form(f.buttons[i].value, bs, shown)
  }

  /** A row where only button `i` is active holds exactly one active button. */
  lemma {:induction false} CountOnlyActive(bs: seq<Button>, i: nat)
    requires i < |bs|
    requires forall j :: 0 <= j < |bs| ==> (bs[j].active <==> j == i)
    ensures ActiveCount(bs) == 1
    decreases |bs|
  {
    if i == 0 {
      NoneActive(bs[1..]);
    } else {
      CountOnlyActive(bs[1..], i - 1);
    }
  }

  /** A row where no button is active counts zero. */
  lemma {:induction false} NoneActive(bs: seq<Button>)
    requires forall j :: 0 <= j < |bs| ==> !bs[j].active
    ensures ActiveCount(bs) == 0
    decreases |bs|
  {
    if |bs| > 0 {
      NoneActive(bs[1..]);
    }
  }

  /** After any click exactly one button is active, and it is the one clicked. */
  lemma ClickLeavesOneActive(page: Page, f: Form, i: nat)
    requires i < |f.buttons|
    ensures ActiveCount(Click(page, f, i).buttons) == 1
    ensures Click(page, f, i).buttons[i].active
  {
    CountOnlyActive(Click(page, f, i).buttons, i);
  }

  /** Only the last of two clicks matters. */
  lemma LastClickWins(page: Page, f: Form, i: nat, j: nat)
    requires i < |f.buttons| && j < |f.buttons|
    ensures Click(page, Click(page, f, i), j) == Click(page, f, j)
  {
  }

  /** A run of clicks on the buttons listed in `clicks`, in order. */
  function ClickAll(page: Page, f: Form, clicks: seq<nat>): (g: Form)
    requires forall k :: 0 <= k < |clicks| ==> clicks[k] < |f.buttons|
    ensures |g.buttons| == |f.buttons|
    decreases |clicks|
  {
    if |clicks| == 0 then f
    else ClickAll(page, Click(page, f, clicks[0]), clicks[1..])
  }

  /**
   * However many clicks came before, a non-empty run of clicks leaves the form
   * exactly as the last click alone would.
   */
  lemma {:induction false} RunOfClicks(page: Page, f: Form, clicks: seq<nat>)
    requires |clicks| > 0
    requires forall k :: 0 <= k < |clicks| ==> clicks[k] < |f.buttons|
    ensures ClickAll(page, f, clicks) == Click(page, f, clicks[|clicks| - 1])
    decreases |clicks|
  {
    var g := Click(page, f, clicks[0]);
    if |clicks| == 1 {
      assert ClickAll(page, g, clicks[1..]) == g;
    } else {
      RunOfClicks(page, g, clicks[1..]);
      LastClickWins(page, f, clicks[0], clicks[|clicks| - 1]);
    }
  }

  /**
   * The jQuery page after a successful submit: `form.reset()` and then every
   * button loses its active class. The attendance input is a hidden input,
   * whose value lives in its `value` attribute: the click handler's `.val()`
   * rewrote that attribute, and the reset restores the attribute. So the
   * last choice survives the reset. The visibility of the guest field is not
   * part of the reset either.
   */
  function Reset(f: Form): (g: Form)
    ensures g.input == f.input && g.guestsShown == f.guestsShown
    ensures |g.buttons| == |f.buttons|
    ensures forall j :: 0 <= j < |g.buttons| ==> g.buttons[j] == Button(f.buttons[j].value, false)
    ensures ActiveCount(g.buttons) == 0
  {
    var bs := seq(|f.buttons|, j requires 0 <= j < |f.buttons| => f.buttons[j].(active := false));
    NoneActive(bs);
    Form(f.input, bs, f.guestsShown)
  }

  /**
   * After a click and a reset no button shows a choice, yet the input still
   * holds the clicked value, and the next submission sends it.
   */
  lemma ChoiceOutlivesReset(page: Page, f: Form, i: nat)
    requires i < |f.buttons|
    ensures Reset(Click(page, f, i)).input == f.buttons[i].value
    ensures ActiveCount(Reset(Click(page, f, i)).buttons) == 0
  {
  }
}
