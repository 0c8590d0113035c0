/** `PatientDtoValidator`: two FluentValidation rules, one on `FirstName` and
    one on `LastName`, each `NotEmpty().NotEqual("string")`. No other property
    of the DTO is validated. */
module PatientDtoValidator {
  import opened Base

  /** The body of the create and update requests. Only the two names are read
      by the validator; the remaining properties are kept by name. */
  datatype PatientDto = PatientDto(
    firstName: Option<string>,
    lastName: Option<string>,
    otherProperties: map<string, Option<string>>)

  /** The value Swagger UI fills a string field with. */
  const Placeholder: string := "string"

  const NotEmptyCode: string := "NotEmptyValidator"
  const NotEqualCode: string := "NotEqualValidator"

  /** A name both rules accept: present, with at least one character that is
      not white space, and not the placeholder. */
  predicate NameAccepted(name: Option<string>) {
    name.Some? && name.value != Placeholder
    && exists i :: 0 <= i < |name.value| && !IsWhiteSpace(name.value[i])
  }

  /** One `RuleFor(...).NotEmpty().NotEqual("string")` chain: both validators
      run (the cascade mode is the default, Continue), `NotEmpty` first.
      `NotEmpty` rejects null, empty and white-space strings; `NotEqual`
      compares ordinally, so null passes it. */
  function NameRule(propertyName: string, name: Option<string>): (fs: seq<ValidationFailure>)
    ensures fs == [] <==> NameAccepted(name)
    ensures IsNullOrWhiteSpace(name) ==> fs == [ValidationFailure(propertyName, NotEmptyCode)]
    ensures name == Some(Placeholder) ==> fs == [ValidationFailure(propertyName, NotEqualCode)]
    ensures forall k :: 0 <= k < |fs| ==> fs[k].propertyName == propertyName
  {
    assert !IsNullOrWhiteSpace(Some(Placeholder)) by { assert !IsWhiteSpace(Placeholder[0]); }
    (if IsNullOrWhiteSpace(name) then [ValidationFailure(propertyName, NotEmptyCode)] else [])
    + (if name == Some(Placeholder) then [ValidationFailure(propertyName, NotEqualCode)] else [])
  }

  /** `Validate(PatientDto)`: the failures of both rules, first name first. */
  function Validate(dto: PatientDto): (fs: seq<ValidationFailure>)
    ensures fs == [] <==> NameAccepted(dto.firstName) && NameAccepted(dto.lastName)
    ensures (exists k :: 0 <= k < |fs| && fs[k].propertyName == "FirstName") <==> !NameAccepted(dto.firstName)
    ensures (exists k :: 0 <= k < |fs| && fs[k].propertyName == "LastName") <==> !NameAccepted(dto.lastName)
    ensures forall k :: 0 <= k < |fs| ==> fs[k].propertyName in {"FirstName", "LastName"}
  {
    var first := NameRule("FirstName", dto.firstName);
    var last := NameRule("LastName", dto.lastName);
    assert "FirstName" != "LastName" by { assert "FirstName"[0] != "LastName"[0]; }
    FailuresByProperty(first, last, "FirstName", "LastName");
    first + last
  }

  /** The failures of two rules on distinct properties, joined: each property
      has a failure exactly when its own rule reported one. */
  lemma FailuresByProperty(first: seq<ValidationFailure>, last: seq<ValidationFailure>, p: string, q: string)
    requires p != q
    requires forall k :: 0 <= k < |first| ==> first[k].propertyName == p
    requires forall k :: 0 <= k < |last| ==> last[k].propertyName == q
    ensures (exists k :: 0 <= k < |first + last| && (first + last)[k].propertyName == p) <==> first != []
    ensures (exists k :: 0 <= k < |first + last| && (first + last)[k].propertyName == q) <==> last != []
    ensures forall k :: 0 <= k < |first + last| ==> (first + last)[k].propertyName in {p, q}
  {
    var all := first + last;
    assert forall k :: 0 <= k < |first| ==> all[k] == first[k];
    assert forall k :: |first| <= k < |all| ==> all[k] == last[k - |first|];
    if first != [] { assert all[0].propertyName == p; }
    if last != [] { assert all[|first|].propertyName == q; }
  }

  predicate IsValid(dto: PatientDto) {
    Validate(dto) == []
  }

  /** Properties other than the two names never change the verdict or the failures. */
  lemma OnlyNamesMatter(a: PatientDto, b: PatientDto)
    requires a.firstName == b.firstName && a.lastName == b.lastName
    ensures Validate(a) == Validate(b)
  {
  }

  /** Two bad names give one failure for each, as the rules run independently. */
  lemma BothNamesReported(dto: PatientDto)
    requires IsNullOrWhiteSpace(dto.firstName) && dto.lastName == Some(Placeholder)
    ensures Validate(dto) == [ValidationFailure("FirstName", NotEmptyCode), ValidationFailure("LastName", NotEqualCode)]
  {
  }
}
