/**
 * The enum-name validator: a string passes when it names a constant of the
 * configured enum, optionally ignoring case; a null passes only when the
 * annotation allows it.
 */
module EnumValidation {
  import opened Wrappers
  import JavaText

  /** The annotation's settings; `constants` are the enum's constant names in order. */
  datatype EnumValid = EnumValid(constants: seq<string>, allowNull: bool, ignoreCase: bool)

  /** An annotation that sets only the enum class takes `allowNull` and `ignoreCase` false. */
  function Defaults(constants: seq<string>): EnumValid
  {
    EnumValid(constants, false, false)
  }

  /** The set `initialize` builds: the names, upper-cased when case is ignored. */
  function ValidValues(constants: seq<string>, ignoreCase: bool): set<string>
  {
    set i | 0 <= i < |constants| :: if ignoreCase then JavaText.ToUpper(constants[i]) else constants[i]
  }

  /** `text` names `name`: exactly, or up to case when case is ignored. */
  predicate Names(ignoreCase: bool, name: string, text: string)
  {
    if ignoreCase then JavaText.ToUpper(name) == JavaText.ToUpper(text) else name == text
  }

  /** Which inputs the annotation admits, stated over the constants themselves. */
  predicate Accepts(a: EnumValid, s: Option<string>)
  {
    match s
    case None => a.allowNull
    case Some(text) => exists i :: 0 <= i < |a.constants| && Names(a.ignoreCase, a.constants[i], text)
  }

  class EnumValidator {
    var validValues: set<string>
    var allowNull: bool
    var ignoreCase: bool

    /** The validator holds what `initialize` derived from `a`. */
    ghost predicate InitializedFrom(a: EnumValid)
      reads this
    {
      allowNull == a.allowNull && ignoreCase == a.ignoreCase &&
      validValues == ValidValues(a.constants, a.ignoreCase)
    }

    constructor ()
      ensures validValues == {} && !allowNull && !ignoreCase
    {
      validValues, allowNull, ignoreCase := {}, false, false;
    }

    method Initialize(a: EnumValid)
      modifies this
      ensures InitializedFrom(a)
      ensures forall name :: name in validValues <==>
        exists i :: 0 <= i < |a.constants| && name == (if a.ignoreCase then JavaText.ToUpper(a.constants[i]) else a.constants[i])
    {
      allowNull := a.allowNull;
      ignoreCase := a.ignoreCase;
      validValues := ValidValues(a.constants, a.ignoreCase);
    }

    /** A null passes exactly when allowed; otherwise the text, upper-cased when case is
        ignored, must be one of the valid values. The fields are only read. */
    function IsValid(s: Option<string>): (ok: bool)
      reads this
      ensures s.None? ==> (ok <==> allowNull)
      ensures s.Some? && ignoreCase ==> (ok <==> JavaText.ToUpper(s.value) in validValues)
      ensures s.Some? && !ignoreCase ==> (ok <==> s.value in validValues)
    {
      if s.None? then allowNull
      else if ignoreCase then JavaText.ToUpper(s.value) in validValues
      else s.value in validValues
    }
  }

  /** After `initialize`, the validator accepts exactly what the annotation admits. */
  lemma ValidatorAcceptsAdmitted(v: EnumValidator, a: EnumValid, s: Option<string>)
    requires v.InitializedFrom(a)
    ensures v.IsValid(s) <==> Accepts(a, s)
  {
    if s.Some? && a.ignoreCase {
      if JavaText.ToUpper(s.value) in v.validValues {
        var i :| 0 <= i < |a.constants| && JavaText.ToUpper(a.constants[i]) == JavaText.ToUpper(s.value);
        assert Names(true, a.constants[i], s.value);
      }
      if Accepts(a, s) {
        var i :| 0 <= i < |a.constants| && Names(true, a.constants[i], s.value);
        assert JavaText.ToUpper(a.constants[i]) in v.validValues;
      }
    } else if s.Some? {
      if s.value in v.validValues {
        var i :| 0 <= i < |a.constants| && a.constants[i] == s.value;
        assert Names(false, a.constants[i], s.value);
      }
      if Accepts(a, s) {
        var i :| 0 <= i < |a.constants| && Names(false, a.constants[i], s.value);
        assert a.constants[i] in v.validValues;
      }
    }
  }

  /** With case ignored, every case variant of a constant's name is admitted, and two
      texts that upper-case alike are admitted alike. */
  lemma CaseVariantsAdmitted(a: EnumValid, i: int, text: string, other: string)
    requires a.ignoreCase && 0 <= i < |a.constants|
    ensures JavaText.ToUpper(text) == JavaText.ToUpper(a.constants[i]) ==> Accepts(a, Some(text))
    ensures JavaText.ToUpper(text) == JavaText.ToUpper(other) ==> (Accepts(a, Some(text)) <==> Accepts(a, Some(other)))
  {
    if JavaText.ToUpper(text) == JavaText.ToUpper(a.constants[i]) {
      assert Names(true, a.constants[i], text);
    }
  }

  /** Without case ignored, only the exact names are admitted. */
  lemma ExactNamesAdmitted(a: EnumValid, text: string)
    requires !a.ignoreCase
    ensures Accepts(a, Some(text)) <==> text in a.constants
  {
    if text in a.constants {
      var i :| 0 <= i < |a.constants| && a.constants[i] == text;
      assert Names(false, a.constants[i], text);
    }
  }

  /** With the annotation's defaults a null is refused, and so is a lower-case variant of
      an upper-case name. */
  lemma DefaultsRefuseNullAndOtherCase(constants: seq<string>)
    requires "JAVA" in constants && "java" !in constants
    ensures !Accepts(Defaults(constants), None)
    ensures !Accepts(Defaults(constants), Some("java"))
    ensures Accepts(Defaults(constants), Some("JAVA"))
  {
    ExactNamesAdmitted(Defaults(constants), "java");
    ExactNamesAdmitted(Defaults(constants), "JAVA");
  }
}
