/**
 * The update request: six optional fields, each `None` (Java `null`) when the
 * stored value is to be kept.
 */
module UpdateRequest {
  import opened Wrappers
  import opened StudyLogDomain

  /** The six fields of a request at one moment. */
  datatype UpdateFields = UpdateFields(
    title: Option<string>,
    content: Option<string>,
    category: Option<string>,
    understanding: Option<string>,
    studyTime: Option<int>,
    studyDate: Option<Day>)

  /** A request that changes nothing. */
  const NoFields: UpdateFields := UpdateFields(None, None, None, None, None, None)

  /** Every field is null. */
  function AllNull(u: UpdateFields): (none: bool)
    ensures none <==> u == NoFields
  {
    u.title.None? && u.content.None? && u.category.None? &&
    u.understanding.None? && u.studyTime.None? && u.studyDate.None?
  }

  /** Giving any one field a value makes a request that changes something. */
  lemma AnyFieldIsAnUpdate(u: UpdateFields, text: string, time: int, day: Day)
    ensures !AllNull(u.(title := Some(text)))
    ensures !AllNull(u.(content := Some(text)))
    ensures !AllNull(u.(category := Some(text)))
    ensures !AllNull(u.(understanding := Some(text)))
    ensures !AllNull(u.(studyTime := Some(time)))
    ensures !AllNull(u.(studyDate := Some(day)))
  {
  }

  class StudyLogUpdateRequest {
    var title: Option<string>
    var content: Option<string>
    var category: Option<string>
    var understanding: Option<string>
    var studyTime: Option<int>
    var studyDate: Option<Day>

    /** The request's fields as a value; the getters read these fields. */
    function Snapshot(): UpdateFields
      reads this
    {
      UpdateFields(title, content, category, understanding, studyTime, studyDate)
    }

    /** A new request has every field null. */
    constructor ()
      ensures Snapshot() == NoFields
    {
      title, content, category, understanding, studyTime, studyDate := None, None, None, None, None, None;
    }

    method SetTitle(value: Option<string>)
      modifies this
      ensures Snapshot() == old(Snapshot()).(title := value)
    {
      title := value;
    }

    method SetContent(value: Option<string>)
      modifies this
      ensures Snapshot() == old(Snapshot()).(content := value)
    {
      content := value;
    }

    method SetCategory(value: Option<string>)
      modifies this
      ensures Snapshot() == old(Snapshot()).(category := value)
    {
      category := value;
    }

    method SetUnderstanding(value: Option<string>)
      modifies this
      ensures Snapshot() == old(Snapshot()).(understanding := value)
    {
      understanding := value;
    }

    method SetStudyTime(value: Option<int>)
      modifies this
      ensures Snapshot() == old(Snapshot()).(studyTime := value)
    {
      studyTime := value;
    }

    method SetStudyDate(value: Option<Day>)
      modifies this
      ensures Snapshot() == old(Snapshot()).(studyDate := value)
    {
      studyDate := value;
    }

    /** Whether all six fields are null. */
    function HasNoUpdates(): (none: bool)
      reads this
      ensures none <==> Snapshot() == NoFields
    {
      title == None && content == None && category == None &&
      understanding == None && studyTime == None && studyDate == None
    }
  }

  /** A fresh request has no updates; after one field is set to a value, it has. */
  method SetOneField(text: string) returns (request: StudyLogUpdateRequest)
    ensures fresh(request) && !request.HasNoUpdates()
    ensures request.Snapshot() == NoFields.(title := Some(text))
  {
    request := new StudyLogUpdateRequest();
    assert request.HasNoUpdates();
    request.SetTitle(Some(text));
  }
}
