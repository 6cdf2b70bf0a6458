/** The four table shapes written in revision 20261030_0008. */
module RfqAwardShapes {
  import opened Catalog
  import opened Adoption
  import opened RfqAward

  const AWARDS := Shape(
    map["id" := Column(Uuid, false), "rfq_id" := Column(Uuid, false), "revision_no" := Column(Integer, false),
        "status" := Column(EnumOf(AwardStatus), false), "total_amount" := Column(Numeric(30, 7), false),
        "currency" := Column(Varchar(10), false), "justification" := Column(Varchar(1000), false),
        "requested_by_id" := Column(Uuid, true), "requested_at" := Column(Timestamp, false),
        "decided_at" := Column(Timestamp, true), "created_at" := Column(Timestamp, false),
        "updated_at" := Column(Timestamp, false)],
    map["ck_rfq_award_revision_positive" := "revision_no>=1",
        "ck_rfq_award_total_amount_nonnegative" := "total_amount>=0andtotal_amount<>allarray[nan,infinity,-infinity]"],
    map["uq_rfq_award_revision" := ["rfq_id", "revision_no"]],
    map["ix_rfq_awards_rfq_id" := ["rfq_id"]],
    ["id"],
    {ForeignKey("rfq_id", RfqRequests, "id", Restrict), ForeignKey("requested_by_id", Users, "id", SetNull)})

  const LINE_QUOTES := Shape(
    map["id" := Column(Uuid, false), "response_id" := Column(Uuid, false), "rfq_line_id" := Column(Uuid, false),
        "quoted_unit_price" := Column(Numeric(14, 4), false), "quoted_currency" := Column(Varchar(10), false),
        "created_at" := Column(Timestamp, false), "updated_at" := Column(Timestamp, false)],
    map["ck_rfq_response_line_quote_price_positive" :=
          "quoted_unit_price>0andquoted_unit_price<>allarray[nan,infinity,-infinity]"],
    map["uq_rfq_response_line_quote" := ["response_id", "rfq_line_id"]],
    map["ix_rfq_response_line_quotes_response_id" := ["response_id"]],
    ["id"],
    {ForeignKey("response_id", RfqResponses, "id", Restrict),
     ForeignKey("rfq_line_id", RfqRequestLines, "id", Restrict)})

  const ALLOCATIONS := Shape(
    map["id" := Column(Uuid, false), "award_id" := Column(Uuid, false), "response_id" := Column(Uuid, false),
        "rfq_line_id" := Column(Uuid, true), "quantity" := Column(Numeric(14, 3), false),
        "created_at" := Column(Timestamp, false), "updated_at" := Column(Timestamp, false)],
    map["ck_rfq_award_allocation_quantity_positive" := "quantity>0andquantity<>allarray[nan,infinity,-infinity]"],
    map["uq_rfq_award_allocation_line_response" := ["award_id", "response_id", "rfq_line_id"]],
    map["ix_rfq_award_allocations_award_id" := ["award_id"]],
    ["id"],
    {ForeignKey("award_id", RfqAwards, "id", Cascade), ForeignKey("response_id", RfqResponses, "id", Restrict),
     ForeignKey("rfq_line_id", RfqRequestLines, "id", Restrict)})

  const APPROVALS := Shape(
    map["id" := Column(Uuid, false), "award_id" := Column(Uuid, false), "approval_rule_id" := Column(Uuid, false),
        "approval_level" := Column(Integer, false), "rule_name" := Column(Varchar(255), false),
        "requires_all_matching_approvers" := Column(Boolean, false), "approver_user_id" := Column(Uuid, false),
        "decision_status" := Column(EnumOf(AwardApprovalStatus), false), "decided_by_id" := Column(Uuid, true),
        "decided_at" := Column(Timestamp, true), "comments" := Column(Varchar(1000), true),
        "created_at" := Column(Timestamp, false), "updated_at" := Column(Timestamp, false)],
    map["ck_rfq_award_approval_level_positive" := "approval_level>=1",
        "ck_rfq_award_approval_decision_attribution" :=
          "decision_status=pendinganddecided_by_idisnullanddecided_atisnullor" +
          "decision_status<>pendinganddecided_by_idisnotnullanddecided_atisnotnull"],
    map["uq_rfq_award_approval_assignee" := ["award_id", "approval_rule_id", "approver_user_id"]],
    map["ix_rfq_award_approvals_award_id" := ["award_id"]],
    ["id"],
    {ForeignKey("award_id", RfqAwards, "id", Cascade), ForeignKey("approval_rule_id", ApprovalRules, "id", Restrict),
     ForeignKey("approver_user_id", Users, "id", Restrict), ForeignKey("decided_by_id", Users, "id", Restrict)})

  /** The four tables in the order in which they are ensured. */
  function PlanOf(awards: Shape, quotes: Shape, allocations: Shape, approvals: Shape): Plan {
    Plan([RfqAwards, RfqResponseLineQuotes, RfqAwardAllocations, RfqAwardApprovals],
         map[RfqAwards := awards, RfqResponseLineQuotes := quotes,
             RfqAwardAllocations := allocations, RfqAwardApprovals := approvals])
  }

  lemma AwardsDepend()
    ensures forall fk :: fk in AWARDS.fks ==> fk.ref == RfqRequests || fk.ref == Users
    ensures Uses(AWARDS, AwardStatus)
  {
    assert AWARDS.columns["status"].kind == EnumOf(AwardStatus);
  }

  lemma LineQuotesDepend()
    ensures forall fk :: fk in LINE_QUOTES.fks ==> fk.ref == RfqResponses || fk.ref == RfqRequestLines
  {
  }

  lemma AllocationsDepend()
    ensures forall fk :: fk in ALLOCATIONS.fks ==>
            fk.ref == RfqAwards || fk.ref == RfqResponses || fk.ref == RfqRequestLines
    ensures Refers(ALLOCATIONS, RfqAwards)
  {
    assert ForeignKey("award_id", RfqAwards, "id", Cascade) in ALLOCATIONS.fks;
  }

  lemma ApprovalsDepend()
    ensures forall fk :: fk in APPROVALS.fks ==> fk.ref == RfqAwards || fk.ref == ApprovalRules || fk.ref == Users
    ensures Refers(APPROVALS, RfqAwards)
    ensures Uses(APPROVALS, AwardApprovalStatus)
  {
    assert ForeignKey("award_id", RfqAwards, "id", Cascade) in APPROVALS.fks;
    assert APPROVALS.columns["decision_status"].kind == EnumOf(AwardApprovalStatus);
  }

  lemma FourAreOrdered(a: Shape, b: Shape, c: Shape, d: Shape)
    requires forall fk :: fk in a.fks ==> fk.ref == RfqRequests || fk.ref == Users
    requires forall fk :: fk in b.fks ==> fk.ref == RfqResponses || fk.ref == RfqRequestLines
    requires forall fk :: fk in c.fks ==> fk.ref == RfqAwards || fk.ref == RfqResponses || fk.ref == RfqRequestLines
    requires forall fk :: fk in d.fks ==> fk.ref == RfqAwards || fk.ref == ApprovalRules || fk.ref == Users
    ensures Workable(PlanOf(a, b, c, d))
  {
    var ts, shapes := PlanOf(a, b, c, d).tables, PlanOf(a, b, c, d).shapes;
    PlanPositions(a, b, c, d);
    forall i, fk | 0 <= i < |ts| && fk in shapes[ts[i]].fks ensures fk.ref !in ts[i..] {
      LaterTables(ts, i, fk.ref);
    }
  }

  lemma PlanPositions(a: Shape, b: Shape, c: Shape, d: Shape)
    ensures var p := PlanOf(a, b, c, d);
            && |p.tables| == 4
            && p.tables[0] == RfqAwards && p.shapes[RfqAwards] == a
            && p.tables[1] == RfqResponseLineQuotes && p.shapes[RfqResponseLineQuotes] == b
            && p.tables[2] == RfqAwardAllocations && p.shapes[RfqAwardAllocations] == c
            && p.tables[3] == RfqAwardApprovals && p.shapes[RfqAwardApprovals] == d
            && p.shapes.Keys == {RfqAwards, RfqResponseLineQuotes, RfqAwardAllocations, RfqAwardApprovals}
  {
  }

  /** Only the award table is referred to from inside the plan, and it comes first. */
  lemma LaterTables(ts: seq<TableName>, i: nat, ref: TableName)
    requires |ts| == 4 && i < 4
    requires ts[0] == RfqAwards && ts[1] == RfqResponseLineQuotes
    requires ts[2] == RfqAwardAllocations && ts[3] == RfqAwardApprovals
    requires ref in {RfqRequests, RfqResponses, RfqRequestLines, ApprovalRules, Users} || (ref == RfqAwards && i > 0)
    ensures ref !in ts[i..]
  {
  }

  lemma FourDepend(a: Shape, b: Shape, c: Shape, d: Shape)
    requires Workable(PlanOf(a, b, c, d))
    requires Uses(a, AwardStatus) && Refers(c, RfqAwards) && Refers(d, RfqAwards) && Uses(d, AwardApprovalStatus)
    ensures Dependencies(PlanOf(a, b, c, d))
  {
    var ts := PlanOf(a, b, c, d).tables;
    assert ts[0] == RfqAwards && ts[2] == RfqAwardAllocations && ts[3] == RfqAwardApprovals;
  }

  /** The migration's own tables come in a workable order and depend on each other as ownership needs. */
  lemma MigrationIsWorkable()
    ensures Dependencies(PlanOf(AWARDS, LINE_QUOTES, ALLOCATIONS, APPROVALS))
  {
    WorkableShapes();
    AwardsDepend();
    AllocationsDepend();
    ApprovalsDepend();
    FourDepend(AWARDS, LINE_QUOTES, ALLOCATIONS, APPROVALS);
  }

  lemma WorkableShapes()
    ensures Workable(PlanOf(AWARDS, LINE_QUOTES, ALLOCATIONS, APPROVALS))
  {
    AwardsDepend();
    LineQuotesDepend();
    AllocationsDepend();
    ApprovalsDepend();
    FourAreOrdered(AWARDS, LINE_QUOTES, ALLOCATIONS, APPROVALS);
  }

  // ----- the revision on a database without any of its objects -----

  /** The shape has one unique constraint and one index, of these names, and no types but the revision's. */
  predicate Plain(shape: Shape, unique: string, index: string) {
    && shape.uniques.Keys == {unique} && shape.indexes.Keys == {index}
    && forall c :: c in shape.columns && shape.columns[c].kind.EnumOf? ==>
         shape.columns[c].kind.enumName in {AwardStatus, AwardApprovalStatus}
  }

  lemma AwardsArePlain()
    ensures Plain(AWARDS, "uq_rfq_award_revision", "ix_rfq_awards_rfq_id")
  {
  }

  lemma LineQuotesArePlain()
    ensures Plain(LINE_QUOTES, "uq_rfq_response_line_quote", "ix_rfq_response_line_quotes_response_id")
  {
  }

  lemma AllocationsArePlain()
    ensures Plain(ALLOCATIONS, "uq_rfq_award_allocation_line_response", "ix_rfq_award_allocations_award_id")
  {
  }

  lemma ApprovalsArePlain()
    ensures Plain(APPROVALS, "uq_rfq_award_approval_assignee", "ix_rfq_award_approvals_award_id")
  {
  }

  /** The names of the plan's unique constraints and indexes. */
  function Uniques(): seq<string> {
    ["uq_rfq_award_revision", "uq_rfq_response_line_quote", "uq_rfq_award_allocation_line_response",
     "uq_rfq_award_approval_assignee"]
  }

  function Indexes(): seq<string> {
    ["ix_rfq_awards_rfq_id", "ix_rfq_response_line_quotes_response_id", "ix_rfq_award_allocations_award_id",
     "ix_rfq_award_approvals_award_id"]
  }

  predicate Distinct(us: seq<string>, xs: seq<string>) {
    && (forall j, k :: 0 <= j < k < |us| ==> us[j] != us[k])
    && (forall j, k :: 0 <= j < k < |xs| ==> xs[j] != xs[k])
    && (forall j, k :: 0 <= j < |us| && 0 <= k < |xs| ==> us[j] != xs[k])
  }

  /** No two of them have the same length. */
  lemma NamesDiffer()
    ensures Distinct(Uniques(), Indexes()) && |Uniques()| == |Indexes()| == 4
  {
    var us, xs := Uniques(), Indexes();
    assert |us[0]| == 21 && |us[1]| == 26 && |us[2]| == 37 && |us[3]| == 30;
    assert |xs[0]| == 20 && |xs[1]| == 39 && |xs[2]| == 33 && |xs[3]| == 31;
  }

  predicate AllPlain(ts: seq<TableName>, shapes: Shapes, us: seq<string>, xs: seq<string>) {
    && |us| == |xs| == |ts|
    && forall k :: 0 <= k < |ts| ==> ts[k] in shapes && Plain(shapes[ts[k]], us[k], xs[k])
  }

  /** A missing table can be had: what it refers to and uses is there, and all names differ and are free. */
  lemma MissingCanBeEnsured(db: Db, ts: seq<TableName>, shapes: Shapes, us: seq<string>, xs: seq<string>, i: nat)
    requires i < |ts| && AllPlain(ts, shapes, us, xs) && Distinct(us, xs) && ts[i] !in db.tables
    requires AwardStatus in db.enums && AwardApprovalStatus in db.enums
    requires forall fk :: fk in shapes[ts[i]].fks ==> fk.ref in db.tables || fk.ref in ts[..i]
    requires NameIsFree(db, us[i]) && NameIsFree(db, xs[i])
    ensures CanEnsure(true, db, ts, shapes, i)
  {
    var shape := shapes[ts[i]];
    assert Plain(shape, us[i], xs[i]);
    forall n, j | n in shape.uniques.Keys + shape.indexes.Keys && 0 <= j < i && ts[j] !in db.tables
      ensures n !in shapes[ts[j]].uniques && n !in shapes[ts[j]].indexes
    {
      assert Plain(shapes[ts[j]], us[j], xs[j]);
      assert n == us[i] || n == xs[i];
      assert shapes[ts[j]].uniques.Keys == {us[j]} && shapes[ts[j]].indexes.Keys == {xs[j]};
    }
  }

  lemma FourArePlain(a: Shape, b: Shape, c: Shape, d: Shape, us: seq<string>, xs: seq<string>)
    requires |us| == |xs| == 4
    requires Plain(a, us[0], xs[0]) && Plain(b, us[1], xs[1]) && Plain(c, us[2], xs[2]) && Plain(d, us[3], xs[3])
    ensures AllPlain(PlanOf(a, b, c, d).tables, PlanOf(a, b, c, d).shapes, us, xs)
  {
    PlanPositions(a, b, c, d);
  }

  /** The five tables that the revision builds on. */
  predicate HasRequired(db: Db) {
    && RfqRequests in db.tables && RfqResponses in db.tables && RfqRequestLines in db.tables
    && ApprovalRules in db.tables && Users in db.tables
  }

  /** None of the revision's own tables is there, and none of its names is taken. */
  predicate Fresh(db: Db) {
    && RfqAwards !in db.tables && RfqResponseLineQuotes !in db.tables
    && RfqAwardAllocations !in db.tables && RfqAwardApprovals !in db.tables
    && forall j :: 0 <= j < 4 ==> NameIsFree(db, Uniques()[j]) && NameIsFree(db, Indexes()[j])
  }

  lemma FourCanBeEnsured(db: Db, a: Shape, b: Shape, c: Shape, d: Shape, us: seq<string>, xs: seq<string>)
    requires Distinct(us, xs) && AllPlain(PlanOf(a, b, c, d).tables, PlanOf(a, b, c, d).shapes, us, xs)
    requires forall fk :: fk in a.fks ==> fk.ref == RfqRequests || fk.ref == Users
    requires forall fk :: fk in b.fks ==> fk.ref == RfqResponses || fk.ref == RfqRequestLines
    requires forall fk :: fk in c.fks ==> fk.ref == RfqAwards || fk.ref == RfqResponses || fk.ref == RfqRequestLines
    requires forall fk :: fk in d.fks ==> fk.ref == RfqAwards || fk.ref == ApprovalRules || fk.ref == Users
    requires HasRequired(db) && AwardStatus in db.enums && AwardApprovalStatus in db.enums
    requires RfqAwards !in db.tables && RfqResponseLineQuotes !in db.tables
    requires RfqAwardAllocations !in db.tables && RfqAwardApprovals !in db.tables
    requires forall j :: 0 <= j < |us| ==> NameIsFree(db, us[j]) && NameIsFree(db, xs[j])
    ensures var p := PlanOf(a, b, c, d);
            (forall k :: 0 <= k < |p.tables| ==> p.tables[k] in p.shapes) &&
            forall i :: 0 <= i < |p.tables| ==> CanEnsure(true, db, p.tables, p.shapes, i)
  {
    var ts, shapes := PlanOf(a, b, c, d).tables, PlanOf(a, b, c, d).shapes;
    PlanPositions(a, b, c, d);
    forall i | 0 <= i < 4 ensures CanEnsure(true, db, ts, shapes, i) {
      if i > 0 { assert ts[..i][0] == RfqAwards; }
      MissingCanBeEnsured(db, ts, shapes, us, xs, i);
    }
  }

  lemma ShapesArePlain()
    ensures AllPlain(PlanOf(AWARDS, LINE_QUOTES, ALLOCATIONS, APPROVALS).tables,
                     PlanOf(AWARDS, LINE_QUOTES, ALLOCATIONS, APPROVALS).shapes, Uniques(), Indexes())
  {
    AwardsArePlain();
    LineQuotesArePlain();
    AllocationsArePlain();
    ApprovalsArePlain();
    FourArePlain(AWARDS, LINE_QUOTES, ALLOCATIONS, APPROVALS, Uniques(), Indexes());
  }

  lemma AllCanBeEnsured(db: Db)
    requires HasRequired(db) && Fresh(db) && AwardStatus in db.enums && AwardApprovalStatus in db.enums
    ensures var p := PlanOf(AWARDS, LINE_QUOTES, ALLOCATIONS, APPROVALS);
            (forall k :: 0 <= k < |p.tables| ==> p.tables[k] in p.shapes) &&
            forall i :: 0 <= i < |p.tables| ==> CanEnsure(true, db, p.tables, p.shapes, i)
  {
    AwardsDepend();
    LineQuotesDepend();
    AllocationsDepend();
    ApprovalsDepend();
    ShapesArePlain();
    NamesDiffer();
    FourCanBeEnsured(db, AWARDS, LINE_QUOTES, ALLOCATIONS, APPROVALS, Uniques(), Indexes());
  }

  /** On a database with the five tables, and without the revision's own tables, enums and names, it goes through. */
  lemma FreshUpgradeGoesThrough(s: State)
    requires HasRequired(s.db) && Fresh(s.db) && s.marker == NoMarker
    requires AwardStatus !in s.db.enums && AwardApprovalStatus !in s.db.enums
    ensures Workable(PlanOf(AWARDS, LINE_QUOTES, ALLOCATIONS, APPROVALS))
    ensures Upgrade(PlanOf(AWARDS, LINE_QUOTES, ALLOCATIONS, APPROVALS), s).Some?
  {
    WorkableShapes();
    AllCanBeEnsured(EnumsInPlace(s.db));
    UpgradeSucceedsIff(PlanOf(AWARDS, LINE_QUOTES, ALLOCATIONS, APPROVALS), s);
  }
}
