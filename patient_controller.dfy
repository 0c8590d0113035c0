/** `PatientController`: the patient actions of the OpenAPI facade and the
    CSV upload that creates new patients and updates existing ones. The
    patient service behind it is a store that records every call it receives
    and answers from its history; what it does remotely is not modelled. */
module PatientController {
  import opened Base
  import PatientDtoValidator
  import PatientsCsvValidator

  type Byte = b: int | 0 <= b < 256

  /** One parsed CSV row: its business identifier and its other columns. How
      two rows are compared is a parameter of the controller (`rowKey`). */
  datatype PatientCsv = PatientCsv(identifier: string, cells: seq<string>)

  // ---------------------------------------------------------------------
  // `Except`: LINQ set difference

  /** The keys of the rows in `s`. */
  function KeySet<T, K(==)>(s: seq<T>, key: T -> K): (ks: set<K>)
    ensures forall i :: 0 <= i < |s| ==> key(s[i]) in ks
    ensures forall k :: k in ks ==> exists i :: 0 <= i < |s| && key(s[i]) == k
  {
    if s == [] then {}
    else
      var rest := KeySet(s[1..], key);
      assert forall i :: 1 <= i < |s| ==> s[i] == s[1..][i - 1];
      {key(s[0])} + rest
  }

  /** `Enumerable.Except` with the keys already in `seen`: walk `first` in
      order and keep each element whose key is not seen yet, then mark it seen. */
  function ExceptFrom<T, K(==)>(first: seq<T>, seen: set<K>, key: T -> K): (r: seq<T>)
    ensures forall k :: 0 <= k < |r| ==> key(r[k]) !in seen
    ensures forall p, q :: 0 <= p < q < |r| ==> key(r[p]) != key(r[q])
  {
    if first == [] then []
    else if key(first[0]) in seen then ExceptFrom(first[1..], seen, key)
    else
      var rest := ExceptFrom(first[1..], seen + {key(first[0])}, key);
      var r := [first[0]] + rest;
      assert forall k :: 1 <= k < |r| ==> r[k] == rest[k - 1];
      r
  }

  /** Every key of `first` that is not in `seen` is the key of some element of the result. */
  lemma {:induction false} ExceptFromComplete<T, K>(first: seq<T>, seen: set<K>, key: T -> K, i: nat)
    requires i < |first| && key(first[i]) !in seen
    ensures exists k :: 0 <= k < |ExceptFrom(first, seen, key)| && key(ExceptFrom(first, seen, key)[k]) == key(first[i])
  {
    var r := ExceptFrom(first, seen, key);
    if key(first[0]) in seen {
      assert i > 0 && first[i] == first[1..][i - 1];
      ExceptFromComplete(first[1..], seen, key, i - 1);
    } else if i == 0 || key(first[i]) == key(first[0]) {
      assert key(r[0]) == key(first[i]);
    } else {
      var seen' := seen + {key(first[0])};
      var rest := ExceptFrom(first[1..], seen', key);
      assert r == [first[0]] + rest;
      assert first[i] == first[1..][i - 1];
      ExceptFromComplete(first[1..], seen', key, i - 1);
      var k :| 0 <= k < |rest| && key(rest[k]) == key(first[i]);
      assert r[k + 1] == rest[k];
    }
  }

  /** The result keeps the first occurrence of each key and the order of
      `first`: `idx` gives, for each element of the result, the position in
      `first` it comes from, and these positions increase. */
  lemma {:induction false} ExceptFromKeepsFirstOccurrences<T, K>(first: seq<T>, seen: set<K>, key: T -> K)
    returns (idx: seq<nat>)
    ensures |idx| == |ExceptFrom(first, seen, key)|
    ensures forall k :: 0 <= k < |idx| ==> idx[k] < |first| && first[idx[k]] == ExceptFrom(first, seen, key)[k]
    ensures forall k :: 0 <= k < |idx| ==> forall j :: 0 <= j < idx[k] ==> key(first[j]) != key(first[idx[k]])
    ensures forall p, q :: 0 <= p < q < |idx| ==> idx[p] < idx[q]
  {
    if first == [] {
      idx := [];
    } else if key(first[0]) in seen {
      var tail := ExceptFromKeepsFirstOccurrences(first[1..], seen, key);
      ShiftKeepsFirstOccurrences(first, key, tail, seen, ExceptFrom(first[1..], seen, key));
      idx := ShiftIndices(tail);
    } else {
      var seen' := seen + {key(first[0])};
      var tail := ExceptFromKeepsFirstOccurrences(first[1..], seen', key);
      var rest := ExceptFrom(first[1..], seen', key);
      ShiftKeepsFirstOccurrences(first, key, tail, seen', rest);
      assert ExceptFrom(first, seen, key) == [first[0]] + rest;
      idx := [0] + ShiftIndices(tail);
    }
  }

  /** One step of the induction above: positions in `first[1..]` that pick
      first occurrences of keys not in `s` still pick first occurrences in
      `first` once shifted by one, as long as `first[0]`'s key is in `s`. */
  lemma ShiftKeepsFirstOccurrences<T, K>(first: seq<T>, key: T -> K, tail: seq<nat>, s: set<K>, rest: seq<T>)
    requires |first| > 0 && key(first[0]) in s
    requires |tail| == |rest| && forall k :: 0 <= k < |rest| ==> key(rest[k]) !in s
    requires forall k :: 0 <= k < |tail| ==> tail[k] < |first[1..]| && first[1..][tail[k]] == rest[k]
    requires forall k :: 0 <= k < |tail| ==> forall j :: 0 <= j < tail[k] ==> key(first[1..][j]) != key(first[1..][tail[k]])
    ensures forall k :: 0 <= k < |tail| ==> tail[k] + 1 < |first| && first[tail[k] + 1] == rest[k]
    ensures forall k :: 0 <= k < |tail| ==> forall j :: 0 <= j < tail[k] + 1 ==> key(first[j]) != key(first[tail[k] + 1])
  {
    forall k | 0 <= k < |tail|
      ensures tail[k] + 1 < |first| && first[tail[k] + 1] == rest[k]
      ensures forall j :: 0 <= j < tail[k] + 1 ==> key(first[j]) != key(first[tail[k] + 1])
    {
      assert first[tail[k] + 1] == first[1..][tail[k]];
      forall j | 0 <= j < tail[k] + 1 ensures key(first[j]) != key(first[tail[k] + 1]) {
        if j > 0 { assert first[j] == first[1..][j - 1]; }
      }
    }
  }

  function ShiftIndices(idx: seq<nat>): (r: seq<nat>)
    ensures |r| == |idx| && forall k :: 0 <= k < |r| ==> r[k] == idx[k] + 1
  {
    seq(|idx|, k requires 0 <= k < |idx| => idx[k] + 1)
  }

  /** `first.Except(second)`: the elements of `first` whose key is not the key
      of any element of `second`, without repeated keys. */
  function Except<T, K(==)>(first: seq<T>, second: seq<T>, key: T -> K): (r: seq<T>)
    ensures forall k :: 0 <= k < |r| ==> forall j :: 0 <= j < |second| ==> key(r[k]) != key(second[j])
    ensures forall p, q :: 0 <= p < q < |r| ==> key(r[p]) != key(r[q])
  {
    ExceptFrom(first, KeySet(second, key), key)
  }

  /** Every row of `first` whose key no row of `second` has is represented in
      the result, and the result takes, in the order of `first`, the first row
      with each such key. */
  lemma ExceptIsFirstOccurrencesOfMissingKeys<T, K>(first: seq<T>, second: seq<T>, key: T -> K)
    returns (idx: seq<nat>)
    ensures var r := Except(first, second, key);
            && (forall i :: 0 <= i < |first| && (forall j :: 0 <= j < |second| ==> key(first[i]) != key(second[j])) ==>
                  exists k :: 0 <= k < |r| && key(r[k]) == key(first[i]))
            && |idx| == |r|
            && (forall k :: 0 <= k < |idx| ==> idx[k] < |first| && first[idx[k]] == r[k])
            && (forall k :: 0 <= k < |idx| ==> forall j :: 0 <= j < idx[k] ==> key(first[j]) != key(first[idx[k]]))
            && (forall p, q :: 0 <= p < q < |idx| ==> idx[p] < idx[q])
  {
    var seen := KeySet(second, key);
    forall i | 0 <= i < |first| && (forall j :: 0 <= j < |second| ==> key(first[i]) != key(second[j]))
      ensures exists k :: 0 <= k < |Except(first, second, key)| && key(Except(first, second, key)[k]) == key(first[i])
    {
      assert key(first[i]) !in seen;
      assert Except(first, second, key) == ExceptFrom(first, seen, key);
      ExceptFromComplete(first, seen, key, i);
    }
    idx := ExceptFromKeepsFirstOccurrences(first, seen, key);
  }

  // ---------------------------------------------------------------------
  // The patient service: a store that records the calls it receives

  datatype ServiceCall =
    | CreatePatientCall(patient: PatientDtoValidator.PatientDto)
    | DeletePatientByIdentifierCall(identifier: string)
    | GetPatientsCall(pageSize: int)
    | SearchByIdentifierCall(identifier: string)
    | SearchByResourceIdCall(resourceId: string)
    | UpdatePatientMaritalStatusCall(resourceId: string, maritalStatusCode: string)
    | UpdatePatientCall(patient: PatientDtoValidator.PatientDto)
    | ExistingPatientsCall(patients: seq<PatientCsv>)
    | CreatePatientsCall(patients: seq<PatientCsv>)
    | UpdatePatientsCall(patients: seq<PatientCsv>)

  /** `IPatientService`. Each remote operation appends its call to `log` and
      answers with a reply that depends on the calls made before it and on the
      call itself; `ParsePatients` is a pure function of the file's bytes. */
  class PatientService<Patient> {
    var log: seq<ServiceCall>
    const patientReply: (seq<ServiceCall>, ServiceCall) -> Option<Patient>
    const patientsReply: (seq<ServiceCall>, int) -> Option<seq<Patient>>
    const deleteReply: (seq<ServiceCall>, string) -> bool
    const existingReply: (seq<ServiceCall>, seq<PatientCsv>) -> seq<PatientCsv>
    const parse: seq<Byte> -> seq<PatientCsv>

    constructor (
      patientReply: (seq<ServiceCall>, ServiceCall) -> Option<Patient>,
      patientsReply: (seq<ServiceCall>, int) -> Option<seq<Patient>>,
      deleteReply: (seq<ServiceCall>, string) -> bool,
      existingReply: (seq<ServiceCall>, seq<PatientCsv>) -> seq<PatientCsv>,
      parse: seq<Byte> -> seq<PatientCsv>)
      ensures log == []
      ensures this.patientReply == patientReply && this.patientsReply == patientsReply
      ensures this.deleteReply == deleteReply && this.existingReply == existingReply
      ensures this.parse == parse
    {
      log := [];
      this.patientReply := patientReply;
      this.patientsReply := patientsReply;
      this.deleteReply := deleteReply;
      this.existingReply := existingReply;
      this.parse := parse;
    }

    /** The calls that answer with one patient or null. */
    method CallForPatient(call: ServiceCall) returns (patient: Option<Patient>)
      requires call.CreatePatientCall? || call.SearchByIdentifierCall? || call.SearchByResourceIdCall?
               || call.UpdatePatientMaritalStatusCall? || call.UpdatePatientCall?
      modifies this`log
      ensures log == old(log) + [call]
      ensures patient == patientReply(old(log), call)
    {
      patient := patientReply(log, call);
      log := log + [call];
    }

    method GetPatients(pageSize: int) returns (patients: Option<seq<Patient>>)
      modifies this`log
      ensures log == old(log) + [GetPatientsCall(pageSize)]
      ensures patients == patientsReply(old(log), pageSize)
    {
      patients := patientsReply(log, pageSize);
      log := log + [GetPatientsCall(pageSize)];
    }

    method DeletePatientByIdentifier(identifier: string) returns (deleted: bool)
      modifies this`log
      ensures log == old(log) + [DeletePatientByIdentifierCall(identifier)]
      ensures deleted == deleteReply(old(log), identifier)
    {
      deleted := deleteReply(log, identifier);
      log := log + [DeletePatientByIdentifierCall(identifier)];
    }

    method ExistingPatients(patients: seq<PatientCsv>) returns (existing: seq<PatientCsv>)
      modifies this`log
      ensures log == old(log) + [ExistingPatientsCall(patients)]
      ensures existing == existingReply(old(log), patients)
    {
      existing := existingReply(log, patients);
      log := log + [ExistingPatientsCall(patients)];
    }

    method CreatePatients(patients: seq<PatientCsv>)
      modifies this`log
      ensures log == old(log) + [CreatePatientsCall(patients)]
    {
      log := log + [CreatePatientsCall(patients)];
    }

    method UpdatePatients(patients: seq<PatientCsv>)
      modifies this`log
      ensures log == old(log) + [UpdatePatientsCall(patients)]
    {
      log := log + [UpdatePatientsCall(patients)];
    }
  }

  // ---------------------------------------------------------------------
  // Action results

  /** `NotFoundError`: an `ApiError` with status 404 and a message. */
  datatype NotFoundError = NotFoundError(message: string)

  /** MVC's model state: the errors MVC records itself (binding the request,
      and the DataAnnotations attribute validation that still runs after
      FluentValidation by default), and the failures of the FluentValidation
      validator registered for the bound body, if any. */
  datatype ModelState = ModelState(otherModelErrors: seq<string>, failures: seq<ValidationFailure>) {
    predicate IsValid() {
      otherModelErrors == [] && failures == []
    }
  }

  /** The model state of a request with a `PatientDto` body: FluentValidation
      is registered with MVC, so `PatientDtoValidator` runs on the body. */
  function PatientDtoModelState(otherModelErrors: seq<string>, patient: PatientDtoValidator.PatientDto): (ms: ModelState)
    ensures ms.IsValid() <==> otherModelErrors == [] && PatientDtoValidator.IsValid(patient)
  {
    ModelState(otherModelErrors, PatientDtoValidator.Validate(patient))
  }

  datatype BadRequestBody =
    | NoErrors
    | ModelStateErrors(state: ModelState)
    | CsvValidationResult(failures: seq<PatientsCsvValidator.RowFailure<ValidationFailure>>)

  datatype Body<D> = NoBody | Detail(detail: D) | Details(details: seq<D>) | Text(text: string)

  datatype ActionResult<D> =
    | Ok(body: Body<D>)
    | BadRequest(errors: BadRequestBody)
    | NotFound(error: NotFoundError)

  /** What an action ends with: a result, or an exception it lets escape. */
  datatype ActionOutcome<D> = Returned(result: ActionResult<D>) | Threw(exceptionType: string)

  const ArgumentOutOfRangeExceptionType: string := "System.ArgumentOutOfRangeException"

  /** The rule shared by the single-record actions once the model state is
      valid: a null reply is NotFound with the given message, any other reply
      is Ok of its conversion. */
  function OkOrNotFound<P, D>(reply: Option<P>, notFoundMessage: string, convert: P -> D): (r: ActionResult<D>)
    ensures r.NotFound? <==> reply.None?
    ensures reply.None? ==> r == NotFound(NotFoundError(notFoundMessage))
    ensures reply.Some? ==> r == Ok(Detail(convert(reply.value)))
  {
    match reply
    case None => NotFound(NotFoundError(notFoundMessage))
    case Some(p) => Ok(Detail(convert(p)))
  }

  /** `file.CopyToAsync(stream)` into a fresh `MemoryStream`, then `ToArray()`. */
  method CopyToMemoryStream(file: seq<Byte>) returns (content: seq<Byte>)
    ensures content == file
  {
    var buffer := new Byte[|file|];
    var i := 0;
    while i < |file|
      invariant 0 <= i <= |file|
      invariant buffer[..i] == file[..i]
    {
      buffer[i] := file[i];
      i := i + 1;
    }
    content := buffer[..];
  }

  // ---------------------------------------------------------------------
  // The controller

  /** The controller. `rowKey` is the equality `Except` uses on rows: two
      rows are equal exactly when their keys are. */
  class PatientController<Patient, Detail, RowId(==)> {
    const service: PatientService<Patient>
    const toDetail: Patient -> Detail
    const toDetails: seq<Patient> -> seq<Detail>
    const rowValidator: PatientCsv -> seq<ValidationFailure>
    const rowKey: PatientCsv -> RowId

    constructor (
      service: PatientService<Patient>,
      toDetail: Patient -> Detail,
      toDetails: seq<Patient> -> seq<Detail>,
      rowValidator: PatientCsv -> seq<ValidationFailure>,
      rowKey: PatientCsv -> RowId)
      ensures this.service == service && this.toDetail == toDetail
      ensures this.toDetails == toDetails && this.rowValidator == rowValidator
      ensures this.rowKey == rowKey
    {
      this.service := service;
      this.toDetail := toDetail;
      this.toDetails := toDetails;
      this.rowValidator := rowValidator;
      this.rowKey := rowKey;
    }

    /** `CreatePatientAsync`. */
    method CreatePatient(otherModelErrors: seq<string>, patient: PatientDtoValidator.PatientDto)
      returns (result: ActionResult<Detail>)
      modifies service`log
      ensures var ms := PatientDtoModelState(otherModelErrors, patient);
              !ms.IsValid() ==> result == BadRequest(ModelStateErrors(ms)) && service.log == old(service.log)
      ensures PatientDtoModelState(otherModelErrors, patient).IsValid() ==>
                service.log == old(service.log) + [CreatePatientCall(patient)]
                && result == OkOrNotFound(service.patientReply(old(service.log), CreatePatientCall(patient)),
                                          "The patient was not created", toDetail)
    {
      var modelState := PatientDtoModelState(otherModelErrors, patient);
      if modelState.IsValid() {
        var newPatient := service.CallForPatient(CreatePatientCall(patient));
        if newPatient.None? {
          return NotFound(NotFoundError("The patient was not created"));
        }
        return Ok(Detail(toDetail(newPatient.value)));
      } else {
        return BadRequest(ModelStateErrors(modelState));
      }
    }

    /** `DeleteByIdentifierAsync`. */
    method DeleteByIdentifier(modelState: ModelState, identifier: string) returns (result: ActionResult<Detail>)
      modifies service`log
      ensures !modelState.IsValid() ==> result == BadRequest(NoErrors) && service.log == old(service.log)
      ensures modelState.IsValid() ==>
                service.log == old(service.log) + [DeletePatientByIdentifierCall(identifier)]
                && (service.deleteReply(old(service.log), identifier) ==>
                      result == Ok(Text("The Patient " + identifier + " was deleted")))
                && (!service.deleteReply(old(service.log), identifier) ==>
                      result == NotFound(NotFoundError("The Patient " + identifier + " was not deleted")))
    {
      if modelState.IsValid() {
        var deleted := service.DeletePatientByIdentifier(identifier);
        if !deleted {
          return NotFound(NotFoundError("The Patient " + identifier + " was not deleted"));
        }
        return Ok(Text("The Patient " + identifier + " was deleted"));
      }
      return BadRequest(NoErrors);
    }

    /** `GetAsync`. */
    method Get(modelState: ModelState, pageSize: int) returns (result: ActionResult<Detail>)
      modifies service`log
      ensures !modelState.IsValid() ==> result == BadRequest(NoErrors) && service.log == old(service.log)
      ensures modelState.IsValid() ==>
                service.log == old(service.log) + [GetPatientsCall(pageSize)]
                && match service.patientsReply(old(service.log), pageSize)
                   case None => result == NotFound(NotFoundError("The patients were not found"))
                   case Some(patients) => result == Ok(Details(toDetails(patients)))
    {
      if modelState.IsValid() {
        var patients := service.GetPatients(pageSize);
        if patients.None? {
          return NotFound(NotFoundError("The patients were not found"));
        }
        return Ok(Details(toDetails(patients.value)));
      }
      return BadRequest(NoErrors);
    }

    /** `GetByIdentifierAsync`. */
    method GetByIdentifier(modelState: ModelState, identifier: string) returns (result: ActionResult<Detail>)
      modifies service`log
      ensures !modelState.IsValid() ==> result == BadRequest(NoErrors) && service.log == old(service.log)
      ensures modelState.IsValid() ==>
                service.log == old(service.log) + [SearchByIdentifierCall(identifier)]
                && result == OkOrNotFound(service.patientReply(old(service.log), SearchByIdentifierCall(identifier)),
                                          "The patient " + identifier + " was not found", toDetail)
    {
      if modelState.IsValid() {
        var patient := service.CallForPatient(SearchByIdentifierCall(identifier));
        if patient.None? {
          return NotFound(NotFoundError("The patient " + identifier + " was not found"));
        }
        return Ok(Detail(toDetail(patient.value)));
      }
      return BadRequest(NoErrors);
    }

    /** `GetByResourceIdAsync`. */
    method GetByResourceId(modelState: ModelState, resourceId: string) returns (result: ActionResult<Detail>)
      modifies service`log
      ensures !modelState.IsValid() ==> result == BadRequest(NoErrors) && service.log == old(service.log)
      ensures modelState.IsValid() ==>
                service.log == old(service.log) + [SearchByResourceIdCall(resourceId)]
                && result == OkOrNotFound(service.patientReply(old(service.log), SearchByResourceIdCall(resourceId)),
                                          "The patient " + resourceId + " was not found", toDetail)
    {
      if modelState.IsValid() {
        var patient := service.CallForPatient(SearchByResourceIdCall(resourceId));
        if patient.None? {
          return NotFound(NotFoundError("The patient " + resourceId + " was not found"));
        }
        return Ok(Detail(toDetail(patient.value)));
      }
      return BadRequest(NoErrors);
    }

    /** `UpdateMaritalStatusAsync`. */
    method UpdateMaritalStatus(modelState: ModelState, resourceId: string, maritalStatusCode: string)
      returns (result: ActionResult<Detail>)
      modifies service`log
      ensures !modelState.IsValid() ==> result == BadRequest(ModelStateErrors(modelState)) && service.log == old(service.log)
      ensures modelState.IsValid() ==>
                var call := UpdatePatientMaritalStatusCall(resourceId, maritalStatusCode);
                service.log == old(service.log) + [call]
                && result == OkOrNotFound(service.patientReply(old(service.log), call), "The patient was not updated", toDetail)
    {
      if modelState.IsValid() {
        var patient := service.CallForPatient(UpdatePatientMaritalStatusCall(resourceId, maritalStatusCode));
        if patient.None? {
          return NotFound(NotFoundError("The patient was not updated"));
        }
        return Ok(Detail(toDetail(patient.value)));
      } else {
        return BadRequest(ModelStateErrors(modelState));
      }
    }

    /** `UpdatePatientAsync`. */
    method UpdatePatient(otherModelErrors: seq<string>, patient: PatientDtoValidator.PatientDto)
      returns (result: ActionResult<Detail>)
      modifies service`log
      ensures var ms := PatientDtoModelState(otherModelErrors, patient);
              !ms.IsValid() ==> result == BadRequest(ModelStateErrors(ms)) && service.log == old(service.log)
      ensures PatientDtoModelState(otherModelErrors, patient).IsValid() ==>
                service.log == old(service.log) + [UpdatePatientCall(patient)]
                && result == OkOrNotFound(service.patientReply(old(service.log), UpdatePatientCall(patient)),
                                          "The patient was not updated", toDetail)
    {
      var modelState := PatientDtoModelState(otherModelErrors, patient);
      if modelState.IsValid() {
        var updatedPatient := service.CallForPatient(UpdatePatientCall(patient));
        if updatedPatient.None? {
          return NotFound(NotFoundError("The patient was not updated"));
        }
        return Ok(Detail(toDetail(updatedPatient.value)));
      } else {
        return BadRequest(ModelStateErrors(modelState));
      }
    }

    /** `UploadPatientsAsync`: read the first uploaded file, parse it,
        validate the batch (BadRequest and no service call on failure), ask
        which rows exist, create the others, then update the existing ones. */
    method UploadPatients(files: seq<seq<Byte>>) returns (outcome: ActionOutcome<Detail>)
      modifies service`log
      ensures files == [] ==> outcome == Threw(ArgumentOutOfRangeExceptionType) && service.log == old(service.log)
      ensures files != [] ==>
                var rows := service.parse(files[0]);
                var failures := PatientsCsvValidator.Validate(rows, rowValidator);
                && (failures != [] ==>
                      outcome == Returned(BadRequest(CsvValidationResult(failures)))
                      && service.log == old(service.log))
                && (failures == [] ==>
                      var existing := service.existingReply(old(service.log), rows);
                      outcome == Returned(Ok(NoBody))
                      && service.log == old(service.log) + [ExistingPatientsCall(rows),
                                                            CreatePatientsCall(Except(rows, existing, rowKey)),
                                                            UpdatePatientsCall(existing)])
    {
      if |files| == 0 {
        return Threw(ArgumentOutOfRangeExceptionType);
      }
      var file := files[0];
      var content := CopyToMemoryStream(file);
      var allPatients := service.parse(content);
      var validationResult := PatientsCsvValidator.Validate(allPatients, rowValidator);
      if validationResult != [] {
        return Returned(BadRequest(CsvValidationResult(validationResult)));
      }
      var existingPatients := service.ExistingPatients(allPatients);
      var newPatients := Except(allPatients, existingPatients, rowKey);
      service.CreatePatients(newPatients);
      service.UpdatePatients(existingPatients);
      outcome := Returned(Ok(NoBody));
    }
  }

  /** Every parsed row is either created or was reported as existing, and no
      row is both. */
  lemma UploadPartitionsRows<RowId>(rows: seq<PatientCsv>, existing: seq<PatientCsv>, rowKey: PatientCsv -> RowId)
    ensures var created := Except(rows, existing, rowKey);
            forall i :: 0 <= i < |rows| ==>
              (exists k :: 0 <= k < |created| && rowKey(created[k]) == rowKey(rows[i]))
              != (exists j :: 0 <= j < |existing| && rowKey(existing[j]) == rowKey(rows[i]))
  {
    var _ := ExceptIsFirstOccurrencesOfMissingKeys(rows, existing, rowKey);
  }
}
