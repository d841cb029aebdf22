/** `t2hui.apply_expander`: an expander's head and body both start
    `closed`; every click on the head slides the body and toggles both
    elements' `open` and `closed` classes; the optional callback is bound
    with `one('click', …)`, so it runs on the first click only. */
module Expander {

  /** `toggleClass(c)` */
  function Toggle(s: set<string>, c: string): set<string> {
    if c in s then s - {c} else s + {c}
  }

  /** The classes of an element that started with `init`, after
      `addClass('closed')` and `clicks` clicks. */
  function ClassesAfter(init: set<string>, clicks: nat): set<string> {
    if clicks == 0 then init + {"closed"}
    else Toggle(Toggle(ClassesAfter(init, clicks - 1), "open"), "closed")
  }

  /** After `n` clicks an element is `closed` exactly when `n` is even and
      `open` exactly when `n` is odd (for an element that did not start
      `open`, which flips the parity of `open`); no other class changes. */
  lemma {:induction false} ClassesAfterClicks(init: set<string>, n: nat)
    ensures "closed" in ClassesAfter(init, n) <==> n % 2 == 0
    ensures "open" in ClassesAfter(init, n) <==> ("open" in init) != (n % 2 == 1)
    ensures ClassesAfter(init, n) - {"open", "closed"} == init - {"open", "closed"}
  {
    if n > 0 {
      ClassesAfterClicks(init, n - 1);
    }
  }

  /** An element that did not start `open` carries exactly one of the two
      classes at every moment. */
  lemma ExactlyOne(init: set<string>, n: nat)
    requires "open" !in init
    ensures ("open" in ClassesAfter(init, n)) != ("closed" in ClassesAfter(init, n))
  {
    ClassesAfterClicks(init, n);
  }

  class Expander {
    const initHead: set<string>
    const initBody: set<string>
    const initShown: bool
    const hasCb: bool

    var head: set<string>
    var body: set<string>
    var shown: bool        // body visibility, flipped by slideToggle
    var clicks: nat
    var cbCalls: nat

    predicate Valid()
      reads this
    {
      head == ClassesAfter(initHead, clicks)
      && body == ClassesAfter(initBody, clicks)
      && shown == (initShown != (clicks % 2 == 1))
      && cbCalls == (if hasCb && clicks > 0 then 1 else 0)
    }

    /** `apply_expander(exp, cb)` on a head and body with the given classes. */
    constructor (headClasses: set<string>, bodyClasses: set<string>, bodyShown: bool, cb: bool)
      ensures Valid()
      ensures initHead == headClasses && initBody == bodyClasses && initShown == bodyShown && hasCb == cb
      ensures clicks == 0 && cbCalls == 0
      ensures head == headClasses + {"closed"} && body == bodyClasses + {"closed"}
    {
      initHead := headClasses;
      initBody := bodyClasses;
      initShown := bodyShown;
      hasCb := cb;
      head := headClasses + {"closed"};
      body := bodyClasses + {"closed"};
      shown := bodyShown;
      clicks := 0;
      cbCalls := 0;
    }

    /** A click on the head: the toggle handler, then the one-shot callback. */
    method Click()
      requires Valid()
      modifies this
      ensures Valid() && clicks == old(clicks) + 1
      ensures head == Toggle(Toggle(old(head), "open"), "closed")
      ensures body == Toggle(Toggle(old(body), "open"), "closed")
      ensures shown == !old(shown)
      ensures cbCalls == (if hasCb then 1 else 0)
    {
      shown := !shown;
      head := Toggle(head, "open");
      head := Toggle(head, "closed");
      body := Toggle(body, "open");
      body := Toggle(body, "closed");
      if hasCb && clicks == 0 {
        cbCalls := cbCalls + 1;
      }
      clicks := clicks + 1;
    }
  }
}
