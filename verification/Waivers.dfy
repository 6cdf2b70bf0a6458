/** The decision state of a quality-gate waiver, as its CHECK constraints see it. */
module Waivers {
  import opened Kleene

  datatype Status = Pending | Approved | Rejected | Revoked

  datatype Waiver = Waiver(
    status: Status, decidedBy: Nullable<nat>, decidedAt: Nullable<real>, expiresAt: Nullable<real>,
                           revokedBy: Nullable<nat>, revokedAt: Nullable<real>)

  function Present<T>(x: Nullable<T>): Truth {
    Not(IsNull(x))
  }

  function DecisionCheck(w: Waiver): Truth {
    Or(Or(And(And(And(Of(w.status == Pending), IsNull(w.decidedBy)), IsNull(w.decidedAt)), IsNull(w.expiresAt)),
          And(And(And(Of(w.status == Approved), Present(w.decidedBy)), Present(w.decidedAt)),
              Exceeds(w.expiresAt, w.decidedAt))),
       And(And(Of(w.status in {Rejected, Revoked}), Present(w.decidedBy)), Present(w.decidedAt)))
  }

  function RevocationCheck(w: Waiver): Truth {
    Or(And(And(Of(w.status == Revoked), Present(w.revokedBy)), Present(w.revokedAt)),
       And(And(Of(w.status != Revoked), IsNull(w.revokedBy)), IsNull(w.revokedAt)))
  }

  predicate Accepted(w: Waiver) {
    Admits(DecisionCheck(w)) && Admits(RevocationCheck(w))
  }

  /**
   Exactly what the constraints accept. An approved waiver may lack an expiry: the comparison is then NULL, and the
   whole CHECK with it. A rejected or revoked one may have any expiry, even before its decision.
   */
  lemma AcceptedIff(w: Waiver)
    ensures Accepted(w) <==>
            && (w.status == Pending <==> w.decidedBy.Null?)
            && (w.decidedBy.Null? <==> w.decidedAt.Null?)
            && (w.status == Pending ==> w.expiresAt.Null?)
            && (w.status == Approved && w.expiresAt.Value? ==> w.expiresAt.value > w.decidedAt.value)
            && (w.status == Revoked <==> w.revokedBy.Value?)
            && (w.revokedBy.Value? <==> w.revokedAt.Value?)
  {
  }

  /** An approved waiver that never expires is accepted, though the condition is not TRUE of it. */
  lemma ApprovedWithoutExpiry(decider: nat, at: real)
    ensures var w := Waiver(Approved, Value(decider), Value(at), Null, Null, Null);
            Accepted(w) && DecisionCheck(w) == Unknown
  {
  }

  /** The condition is TRUE of an accepted waiver exactly when, if approved, it has an expiry. */
  lemma ConditionIsTrueIff(w: Waiver)
    requires Accepted(w)
    ensures DecisionCheck(w) == True <==> (w.status == Approved ==> w.expiresAt.Value?)
  {
  }
}
