/** The chain of responsibility that vets a status change: each link runs
    its own check on (current status, new status) and, if that passes,
    forwards the same book and new status to its successor. */
module StatusChain {
  import opened Wrappers
  import opened Exceptions
  import opened Books

  /** The links a chain can be built from: AvailabilityValidator, the one
      concrete validator, and, standing for any other subclass of the
      abstract validator, a link that rejects a fixed set of
      (current, new) pairs with a fixed message. */
  datatype Rule =
    | Availability
    | Forbidden(pairs: set<(Option<BookStatus>, BookStatus)>, message: string)

  /** A link's own check, run before it forwards. */
  function Check(rule: Rule, current: Option<BookStatus>, newStatus: BookStatus): (r: Outcome<Exception>)
    ensures rule.Forbidden? ==> (r.Fail? <==> (current, newStatus) in rule.pairs)
  {
    match rule
    case Availability =>
      if newStatus == Borrowed && current == Some(Borrowed) then
        Fail(IllegalState("Book is already borrowed"))
      else
        Pass
    case Forbidden(pairs, message) =>
      if (current, newStatus) in pairs then Fail(IllegalState(message)) else Pass
  }

  /** AvailabilityValidator rejects lending a book that is already lent,
      with "Book is already borrowed", and lets every other pair through,
      a book with no status included. */
  lemma AvailabilityRule(current: Option<BookStatus>, newStatus: BookStatus)
    ensures Check(Availability, current, newStatus).Fail? <==>
            current == Some(Borrowed) && newStatus == Borrowed
    ensures Check(Availability, current, newStatus).Fail? ==>
            Check(Availability, current, newStatus).error == IllegalState("Book is already borrowed")
  {
  }

  /** What a chain with these rules, in order, answers: the first
      rejection, or success when no link rejects. */
  function Verdict(rules: seq<Rule>, current: Option<BookStatus>, newStatus: BookStatus): Outcome<Exception>
  {
    if |rules| == 0 then Pass
    else
      var v := Check(rules[0], current, newStatus);
      if v.Fail? then v else Verdict(rules[1..], current, newStatus)
  }

  /** A chain accepts exactly when every link accepts. */
  lemma {:induction false} VerdictPassIff(rules: seq<Rule>, current: Option<BookStatus>, newStatus: BookStatus)
    ensures Verdict(rules, current, newStatus) == Pass <==>
            forall i :: 0 <= i < |rules| ==> Check(rules[i], current, newStatus) == Pass
  {
    if |rules| > 0 {
      VerdictPassIff(rules[1..], current, newStatus);
      assert forall i :: 1 <= i < |rules| ==> rules[1..][i - 1] == rules[i];
    }
  }

  /** A rejecting chain answers with the rejection of its first rejecting
      link; the links before it all passed. */
  lemma {:induction false} VerdictFirstRejection(rules: seq<Rule>, current: Option<BookStatus>, newStatus: BookStatus)
    requires Verdict(rules, current, newStatus).Fail?
    ensures exists i :: 0 <= i < |rules| &&
              Verdict(rules, current, newStatus) == Check(rules[i], current, newStatus) &&
              forall j :: 0 <= j < i ==> Check(rules[j], current, newStatus) == Pass
  {
    if Check(rules[0], current, newStatus).Pass? {
      VerdictFirstRejection(rules[1..], current, newStatus);
      var i :| 0 <= i < |rules| - 1 &&
               Verdict(rules[1..], current, newStatus) == Check(rules[1..][i], current, newStatus) &&
               forall j :: 0 <= j < i ==> Check(rules[1..][j], current, newStatus) == Pass;
      assert forall j :: 1 <= j < i + 1 ==> rules[j] == rules[1..][j - 1];
      assert Verdict(rules, current, newStatus) == Check(rules[i + 1], current, newStatus);
    } else {
      assert Verdict(rules, current, newStatus) == Check(rules[0], current, newStatus);
    }
  }

  /** Once a link rejects, what follows it makes no difference. */
  lemma RejectionIgnoresSuccessors(rule: Rule, rest1: seq<Rule>, rest2: seq<Rule>,
                                   current: Option<BookStatus>, newStatus: BookStatus)
    requires Check(rule, current, newStatus).Fail?
    ensures Verdict([rule] + rest1, current, newStatus) == Verdict([rule] + rest2, current, newStatus)
  {
  }

  /** A link of the chain: its own rule and a nullable successor. `Rules`
      lists the rules of this link and of every link after it. */
  class Validator {
    const rule: Rule
    var next: Validator?
    ghost var Rules: seq<Rule>
    ghost var Repr: set<Validator>

    ghost predicate Valid()
      reads this, Repr
      decreases Repr
    {
      this in Repr && |Rules| >= 1 && Rules[0] == rule &&
      (next == null ==> Rules == [rule]) &&
      (next != null ==>
         next in Repr && next.Repr <= Repr && this !in next.Repr &&
         next.Valid() && Rules == [rule] + next.Rules)
    }

    constructor(rule: Rule)
      ensures Valid() && fresh(Repr)
      ensures this.rule == rule && next == null && Rules == [rule]
    {
      this.rule := rule;
      next := null;
      Rules := [rule];
      Repr := {this};
    }

    /** setNext: replaces the successor and nothing else. A successor whose
        chain leads back here is not allowed. */
    method SetNext(successor: Validator?)
      requires successor != null ==> successor.Valid() && this !in successor.Repr
      modifies this
      ensures next == successor && Valid()
      ensures Rules == [rule] + (if successor == null then [] else successor.Rules)
      ensures Repr == {this} + (if successor == null then {} else successor.Repr)
    {
      next := successor;
      if successor == null {
        Rules := [rule];
        Repr := {this};
      } else {
        Rules := [rule] + successor.Rules;
        Repr := {this} + successor.Repr;
      }
    }

    /** validate (AvailabilityValidator): the link's own check, then
        forwarding. The book is only read. */
    method Validate(book: Book, newStatus: BookStatus) returns (r: Outcome<Exception>)
      requires Valid()
      ensures r == Verdict(Rules, book.status, newStatus)
      decreases Repr, 1
    {
      r := Check(rule, book.status, newStatus);
      if r.Fail? {
        return;
      }
      r := ValidateNext(book, newStatus);
    }

    /** validateNext: nothing happens without a successor; otherwise the
        successor validates the same book and new status. */
    method ValidateNext(book: Book, newStatus: BookStatus) returns (r: Outcome<Exception>)
      requires Valid()
      ensures next == null ==> r == Pass
      ensures r == Verdict(Rules[1..], book.status, newStatus)
      decreases Repr, 0
    {
      if next != null {
        assert Rules[1..] == next.Rules;
        r := next.Validate(book, newStatus);
      } else {
        r := Pass;
      }
    }
  }
}
