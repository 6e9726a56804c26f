/**
 * fix-attendance-table-complete.js `normalizeStatus`: the status mapping used
 * when attendance rows are copied into the migrated table, whose CHECK allows
 * present, absent, late and excused.
 */
module StatusMigration {
  import opened Js
  import opened Schema

  const Targets: set<string> := {"present", "absent", "late", "excused"}

  /** The `statusMap` literal: the canonical names and the Russian labels. */
  const StatusMap: map<string, string> := map[
    "present" := "present", "absent" := "absent", "late" := "late", "excused" := "excused",
    "Присутствовал" := "present", "Отсутствовал" := "absent",
    "Опоздал" := "late", "Уважительная" := "excused"]

  /**
   * `statusMap[status] || 'absent'` as written: a key that the object
   * literal inherits from Object.prototype is found and is truthy, so it is
   * returned instead of the default.
   */
  function NormalizeStatusAsWritten(status: string): (r: Value)
    ensures status in StatusMap ==> r == Str(StatusMap[status])
    ensures status !in StatusMap && status !in InheritedKeys ==> r == Str("absent")
    ensures status !in StatusMap && status in InheritedKeys ==> r == Inherited(status)
  {
    var v := Lookup(StatusMap, status);
    if Truthy(v) then v else Str("absent")
  }

  /** "constructor" is not a status, yet it does not fall back to 'absent' and leaves the target set. */
  lemma ConstructorEscapes()
    ensures NormalizeStatusAsWritten("constructor") == Inherited("constructor")
    ensures !(exists s :: s in Targets && NormalizeStatusAsWritten("constructor") == Str(s))
  {
    assert "constructor" !in StatusMap;
  }

  /** The mapping as intended: only the literal's own keys are mapped, everything else is 'absent'. */
  function NormalizeStatus(status: string): (r: string)
    ensures r in Targets
    ensures r in StatusSet(Migrated)
    ensures status in Targets ==> r == status
    ensures status !in StatusMap ==> r == "absent"
  {
    if status in StatusMap then StatusMap[status] else "absent"
  }

  /** Normalising twice is normalising once. */
  lemma NormalizeIdempotent(status: string)
    ensures NormalizeStatus(NormalizeStatus(status)) == NormalizeStatus(status)
  {
  }

  /** The initial schema's 'sick' has no counterpart and becomes 'absent'. */
  lemma SickBecomesAbsent()
    ensures "sick" in StatusSet(Initial)
    ensures NormalizeStatus("sick") == "absent"
  {
    assert "sick" !in StatusMap;
  }

  /** Wherever the written mapping returns a string, the intended one returns the same. */
  lemma CorrectionAgreesOutsidePrototypeKeys(status: string)
    ensures status !in InheritedKeys ==> NormalizeStatusAsWritten(status) == Str(NormalizeStatus(status))
    ensures NormalizeStatusAsWritten(status).Str? ==> NormalizeStatusAsWritten(status) == Str(NormalizeStatus(status))
  {
  }

  /** The Russian labels map to their English statuses. */
  lemma LabelsTranslate()
    ensures NormalizeStatus("Присутствовал") == "present"
    ensures NormalizeStatus("Отсутствовал") == "absent"
    ensures NormalizeStatus("Опоздал") == "late"
    ensures NormalizeStatus("Уважительная") == "excused"
  {
  }
}
