/** The two table shapes written in revision 20261030_0007. */
module RfqEvaluationShapes {
  import opened Catalog
  import opened Adoption
  import opened RfqEvaluation

  const CRITERIA := Shape(
    map["id" := Column(Uuid, false), "rfq_id" := Column(Uuid, false), "code" := Column(Varchar(50), false),
        "name" := Column(Varchar(200), false), "dimension" := Column(EnumOf(EvaluationDimension), false),
        "weight_percent" := Column(Numeric(5, 2), false), "is_mandatory" := Column(Boolean, false),
        "created_by_id" := Column(Uuid, true), "created_at" := Column(Timestamp, false),
        "updated_at" := Column(Timestamp, false)],
    map["ck_rfq_evaluation_criterion_weight_range" :=
          "weight_percent>0andweight_percent<=100andweight_percent<>allarray[nan,infinity,-infinity]"],
    map["uq_rfq_evaluation_criterion_code" := ["rfq_id", "code"]],
    map["ix_rfq_evaluation_criteria_rfq_id" := ["rfq_id"]],
    ["id"],
    {ForeignKey("rfq_id", RfqRequests, "id", Cascade), ForeignKey("created_by_id", Users, "id", SetNull)})

  const EVALUATIONS := Shape(
    map["id" := Column(Uuid, false), "response_id" := Column(Uuid, false), "criterion_id" := Column(Uuid, false),
        "revision_no" := Column(Integer, false), "score" := Column(Numeric(5, 2), false),
        "passes_gate" := Column(Boolean, true), "comments" := Column(Varchar(1000), true),
        "evaluator_id" := Column(Uuid, true), "evaluated_at" := Column(Timestamp, false),
        "created_at" := Column(Timestamp, false), "updated_at" := Column(Timestamp, false)],
    map["ck_rfq_response_evaluation_score_range" := "score>=0andscore<=100andscore<>allarray[nan,infinity,-infinity]",
        "ck_rfq_response_evaluation_revision_positive" := "revision_no>=1"],
    map["uq_rfq_response_evaluation_revision" := ["response_id", "criterion_id", "revision_no"]],
    map["ix_rfq_response_evaluations_response_id" := ["response_id"],
        "ix_rfq_response_evaluations_criterion_id" := ["criterion_id"]],
    ["id"],
    {ForeignKey("response_id", RfqResponses, "id", Cascade),
     ForeignKey("criterion_id", RfqEvaluationCriteria, "id", Cascade),
     ForeignKey("evaluator_id", Users, "id", SetNull)})

  /** The two tables in the order in which they are ensured. */
  function PlanOf(criteria: Shape, evaluations: Shape): Plan {
    Plan([RfqEvaluationCriteria, RfqResponseEvaluations],
         map[RfqEvaluationCriteria := criteria, RfqResponseEvaluations := evaluations])
  }

  lemma CriteriaDepend()
    ensures forall fk :: fk in CRITERIA.fks ==> fk.ref == RfqRequests || fk.ref == Users
    ensures Uses(CRITERIA, EvaluationDimension)
  {
    assert CRITERIA.columns["dimension"].kind == EnumOf(EvaluationDimension);
  }

  lemma EvaluationsDepend()
    ensures forall fk :: fk in EVALUATIONS.fks ==>
            fk.ref == RfqResponses || fk.ref == RfqEvaluationCriteria || fk.ref == Users
    ensures Refers(EVALUATIONS, RfqEvaluationCriteria)
  {
    assert ForeignKey("criterion_id", RfqEvaluationCriteria, "id", Cascade) in EVALUATIONS.fks;
  }

  lemma BothDepend(a: Shape, b: Shape)
    requires forall fk :: fk in a.fks ==> fk.ref == RfqRequests || fk.ref == Users
    requires forall fk :: fk in b.fks ==> fk.ref == RfqResponses || fk.ref == RfqEvaluationCriteria || fk.ref == Users
    requires Uses(a, EvaluationDimension) && Refers(b, RfqEvaluationCriteria)
    ensures Dependencies(PlanOf(a, b))
  {
    var ts, shapes := PlanOf(a, b).tables, PlanOf(a, b).shapes;
    assert ts[0] == RfqEvaluationCriteria && ts[1] == RfqResponseEvaluations;
    forall i, fk | 0 <= i < |ts| && fk in shapes[ts[i]].fks ensures fk.ref !in ts[i..] {
      if i == 0 {
        assert ts[i] == RfqEvaluationCriteria;
      } else {
        assert ts[i] == RfqResponseEvaluations;
      }
    }
  }

  /** The migration's own tables come in a workable order and depend on each other as ownership needs. */
  lemma MigrationIsWorkable()
    ensures Dependencies(PlanOf(CRITERIA, EVALUATIONS))
  {
    CriteriaDepend();
    EvaluationsDepend();
    BothDepend(CRITERIA, EVALUATIONS);
  }

  // ----- the revision on a database without any of its objects -----

  /** The shape has one unique constraint, these indexes, and no types but the revision's. */
  predicate Plain(shape: Shape, unique: string, indexes: set<string>) {
    && shape.uniques.Keys == {unique} && shape.indexes.Keys == indexes
    && forall c :: c in shape.columns && shape.columns[c].kind.EnumOf? ==>
         shape.columns[c].kind.enumName in {EvaluationDimension, EvaluationStatus}
  }

  const CRITERIA_UNIQUE := "uq_rfq_evaluation_criterion_code"
  const CRITERIA_INDEX := "ix_rfq_evaluation_criteria_rfq_id"
  const EVALUATIONS_UNIQUE := "uq_rfq_response_evaluation_revision"
  const RESPONSE_INDEX := "ix_rfq_response_evaluations_response_id"
  const CRITERION_INDEX := "ix_rfq_response_evaluations_criterion_id"

  lemma CriteriaArePlain()
    ensures Plain(CRITERIA, CRITERIA_UNIQUE, {CRITERIA_INDEX})
  {
  }

  lemma EvaluationsArePlain()
    ensures Plain(EVALUATIONS, EVALUATIONS_UNIQUE, {RESPONSE_INDEX, CRITERION_INDEX})
  {
  }

  /** No two of the five names have the same length. */
  lemma NamesDiffer()
    ensures CRITERIA_UNIQUE != CRITERIA_INDEX
    ensures {CRITERIA_UNIQUE, CRITERIA_INDEX} !! {EVALUATIONS_UNIQUE, RESPONSE_INDEX, CRITERION_INDEX}
    ensures EVALUATIONS_UNIQUE !in {RESPONSE_INDEX, CRITERION_INDEX}
  {
    assert |CRITERIA_UNIQUE| == 32 && |CRITERIA_INDEX| == 33 && |EVALUATIONS_UNIQUE| == 35;
    assert |RESPONSE_INDEX| == 39 && |CRITERION_INDEX| == 40;
  }

  lemma BothCanBeEnsured(db: Db, a: Shape, b: Shape, u: string, xs: set<string>, v: string, ys: set<string>)
    requires Plain(a, u, xs) && Plain(b, v, ys)
    requires u !in xs && v !in ys && {u} + xs !! {v} + ys
    requires forall fk :: fk in a.fks ==> fk.ref == RfqRequests || fk.ref == Users
    requires forall fk :: fk in b.fks ==> fk.ref == RfqResponses || fk.ref == RfqEvaluationCriteria || fk.ref == Users
    requires RfqRequests in db.tables && RfqResponses in db.tables && Users in db.tables
    requires EvaluationDimension in db.enums && EvaluationStatus in db.enums
    requires RfqEvaluationCriteria !in db.tables && RfqResponseEvaluations !in db.tables
    requires forall n :: n in {u, v} + xs + ys ==> NameIsFree(db, n)
    ensures var p := PlanOf(a, b);
            (forall k :: 0 <= k < |p.tables| ==> p.tables[k] in p.shapes) &&
            forall i :: 0 <= i < |p.tables| ==> CanEnsure(false, db, p.tables, p.shapes, i)
  {
    var ts, shapes := PlanOf(a, b).tables, PlanOf(a, b).shapes;
    assert ts == [RfqEvaluationCriteria, RfqResponseEvaluations];
    assert shapes[ts[0]] == a && shapes[ts[1]] == b;
    assert CanEnsure(false, db, ts, shapes, 0);
    assert ts[..1][0] == RfqEvaluationCriteria;
    assert CanEnsure(false, db, ts, shapes, 1);
  }

  /** None of the revision's own tables is there, and none of its names is taken. */
  predicate Fresh(db: Db) {
    && RfqEvaluationCriteria !in db.tables && RfqResponseEvaluations !in db.tables
    && forall n :: n in {CRITERIA_UNIQUE, EVALUATIONS_UNIQUE} + {CRITERIA_INDEX} + {RESPONSE_INDEX, CRITERION_INDEX} ==>
         NameIsFree(db, n)
  }

  lemma AllCanBeEnsured(db: Db)
    requires RfqRequests in db.tables && RfqResponses in db.tables && Users in db.tables && Fresh(db)
    requires EvaluationDimension in db.enums && EvaluationStatus in db.enums
    ensures var p := PlanOf(CRITERIA, EVALUATIONS);
            (forall k :: 0 <= k < |p.tables| ==> p.tables[k] in p.shapes) &&
            forall i :: 0 <= i < |p.tables| ==> CanEnsure(false, db, p.tables, p.shapes, i)
  {
    CriteriaDepend();
    EvaluationsDepend();
    CriteriaArePlain();
    EvaluationsArePlain();
    NamesDiffer();
    BothCanBeEnsured(db, CRITERIA, EVALUATIONS, CRITERIA_UNIQUE, {CRITERIA_INDEX}, EVALUATIONS_UNIQUE,
                     {RESPONSE_INDEX, CRITERION_INDEX});
  }

  lemma NamesStayFree(db: Db, n: string)
    requires RfqResponses in db.tables && NameIsFree(db, n)
    ensures NameIsFree(InPlace(db), n)
  {
  }

  /** On a database with the three tables, and without the revision's own objects, the upgrade goes through. */
  lemma FreshUpgradeGoesThrough(s: State)
    requires RfqRequests in s.db.tables && RfqResponses in s.db.tables && Users in s.db.tables && Fresh(s.db)
    requires s.marker == NoMarker && EvaluationDimension !in s.db.enums && EvaluationStatus !in s.db.enums
    requires "evaluation_status" !in s.db.tables[RfqResponses].shape.columns
    ensures Workable(PlanOf(CRITERIA, EVALUATIONS)) && Upgrade(PlanOf(CRITERIA, EVALUATIONS), s).Some?
  {
    MigrationIsWorkable();
    forall n | NameIsFree(s.db, n) ensures NameIsFree(InPlace(s.db), n) {
      NamesStayFree(s.db, n);
    }
    AllCanBeEnsured(InPlace(s.db));
    UpgradeSucceedsIff(PlanOf(CRITERIA, EVALUATIONS), s);
  }
}
