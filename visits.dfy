/**
  The records the store holds (the `Visit` and `EventType` shapes of the TypeScript types)
  and the seed data both the mock service and the worker start from.
 */
module Visits {
  import opened Wrappers
  import opened Calendar

  datatype VisitType = Individual | Group

  /** The four age groups, in the order of the `AGE_GROUP_KEYS` constant. */
  datatype AgeGroup = Children | Adults | Seniors | Students

  /**
    One visit record. The date is held at day granularity (the stored "YYYY-MM-DD" text);
    `created_at` is an opaque timestamp string set once when the record is created.
   */
  datatype Visit = Visit(
    id: int,
    date: Date,
    visitType: VisitType,
    groupDescription: Option<string>,
    children: int,
    adults: int,
    seniors: int,
    students: int,
    eventTypeId: int,
    createdAt: string)
  {
    function Count(g: AgeGroup): int {
      match g
      case Children => children
      case Adults => adults
      case Seniors => seniors
      case Students => students
    }

    /** children + adults + seniors + students. */
    function Headcount(): int {
      children + adults + seniors + students
    }
  }

  /**
    What the form submits: the fields of a visit except `created_at`. `id` may be present
    (the type allows it) or absent. `group_description` may be absent (None), or
    present (Some) with a text or with null.
   */
  datatype VisitForm = VisitForm(
    id: Option<int>,
    date: Date,
    visitType: VisitType,
    groupDescription: Option<Option<string>>,
    children: int,
    adults: int,
    seniors: int,
    students: int,
    eventTypeId: int)

  /**
    v holds what the form sets: its date, type, four counts and event type, and its
    description when the form has that key.
   */
  predicate Carries(v: Visit, f: VisitForm) {
    && v.date == f.date && v.visitType == f.visitType
    && v.children == f.children && v.adults == f.adults
    && v.seniors == f.seniors && v.students == f.students
    && v.eventTypeId == f.eventTypeId
    && (f.groupDescription.Some? ==> v.groupDescription == f.groupDescription.value)
  }

  /**
    `{ ...data, id, created_at }`: a new record from the form. The keys written after the
    spread win, so a form's own `id` is ignored; a form without a description gives a
    record without one.
   */
  function FromForm(f: VisitForm, id: int, createdAt: string): (v: Visit)
    ensures Carries(v, f) && v.id == id && v.createdAt == createdAt
    ensures f.groupDescription.None? ==> v.groupDescription.None?
  {
    Visit(id, f.date, f.visitType, if f.groupDescription.Some? then f.groupDescription.value else None,
          f.children, f.adults, f.seniors, f.students, f.eventTypeId, createdAt)
  }

  /** Whatever `id` the form carries, the created record is the same. */
  lemma FromFormIgnoresFormId(f: VisitForm, formId: Option<int>, id: int, createdAt: string)
    ensures FromForm(f.(id := formId), id, createdAt) == FromForm(f, id, createdAt)
  {
  }

  /**
    `{ ...visit, ...data }`: every key the form has replaces the record's; the keys it
    lacks (an absent `id` or `group_description`, and always `created_at`) keep their
    old values. A form that carries an `id` therefore renumbers the record.
   */
  function Overwrite(v: Visit, f: VisitForm): (r: Visit)
    ensures Carries(r, f) && r.createdAt == v.createdAt
    ensures f.id.None? ==> r.id == v.id
    ensures f.id.Some? ==> r.id == f.id.value
    ensures f.groupDescription.None? ==> r.groupDescription == v.groupDescription
  {
    Visit(if f.id.Some? then f.id.value else v.id,
          f.date, f.visitType,
          if f.groupDescription.Some? then f.groupDescription.value else v.groupDescription,
          f.children, f.adults, f.seniors, f.students, f.eventTypeId, v.createdAt)
  }

  /** A form holding every key of the record, the id included. */
  function FormOf(v: Visit): VisitForm {
    VisitForm(Some(v.id), v.date, v.visitType, Some(v.groupDescription),
              v.children, v.adults, v.seniors, v.students, v.eventTypeId)
  }

  /** Spreading over a record a form that holds its every key and value gives the record back. */
  lemma OverwriteWithOwnForm(v: Visit)
    ensures Overwrite(v, FormOf(v)) == v
  {
  }

  /** Merging the same form twice is merging it once. */
  lemma OverwriteIdempotent(v: Visit, f: VisitForm)
    ensures Overwrite(Overwrite(v, f), f) == Overwrite(v, f)
  {
  }

  /**
    Merging a form into the record created from it changes nothing but the id, which the
    form's own `id` replaces when it has one.
   */
  lemma OverwriteAfterCreate(f: VisitForm, id: int, createdAt: string)
    ensures Overwrite(FromForm(f, id, createdAt), f)
         == FromForm(f, if f.id.Some? then f.id.value else id, createdAt)
  {
  }

  datatype EventType = EventType(id: int, name: string)

  /** The eight event types the service starts with. */
  const InitialEventTypes: seq<EventType> := [
    EventType(1, "Meeting with writer"),
    EventType(2, "Excursion"),
    EventType(3, "Concert"),
    EventType(4, "Workshop"),
    EventType(5, "Exhibition opening"),
    EventType(6, "Lecture"),
    EventType(7, "Film screening"),
    EventType(8, "Children's program")
  ]

  /**
    The four seed records; the fourth is dated "today" and every `created_at` is the
    start-up time.
   */
  function Seed(today: Date, createdAt: string): seq<Visit> {
    [ Visit(1, Date(2024, 7, 15), Individual, None, 2, 1, 0, 0, 2, createdAt),
      Visit(2, Date(2024, 7, 15), Group, Some("School Trip Grade 5"), 25, 2, 0, 0, 8, createdAt),
      Visit(3, Date(2024, 7, 16), Individual, None, 0, 2, 1, 0, 5, createdAt),
      Visit(4, today, Individual, None, 1, 1, 0, 0, 1, createdAt) ]
  }
}
