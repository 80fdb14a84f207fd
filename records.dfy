/** The record types shared by the page, the capture form and the timeline
    (src/pages/Index.tsx, `RecordType` and `MedicalRecord`). */
module Records {

  datatype Option<+T> = None | Some(value: T)

  /** The closed set of record kinds. */
  datatype RecordType = Operation | Medication | Rehabilitation | Document

  /** `Date.getMonth()` is zero-based: January is 0, December is 11. */
  type Month = m: int | 0 <= m < 12

  /** A JavaScript `Date` reduced to what the core reads from it:
      `getTime()` (milliseconds since the epoch), `getFullYear()` and
      `getMonth()`. No relation between the three is assumed. */
  datatype Date = Date(time: int, year: int, month: Month)

  /** The untyped display values of `details: Record<string, any>`. */
  datatype DetailValue = Text(text: string) | Number(number: int)

  type Details = map<string, DetailValue>

  /** A record held by the page; `description` and `details` are optional. */
  datatype MedicalRecord = MedicalRecord(
    id: string,
    recordType: RecordType,
    title: string,
    date: Date,
    description: Option<string>,
    details: Option<Details>)

  /** `Omit<MedicalRecord, "id">`: what the form hands to the page. */
  datatype Candidate = Candidate(
    recordType: RecordType,
    title: string,
    date: Date,
    description: Option<string>,
    details: Option<Details>)

  /** The candidate with its id stripped off. */
  function WithoutId(r: MedicalRecord): Candidate
  {
    Candidate(r.recordType, r.title, r.date, r.description, r.details)
  }

  /** `{ ...candidate, id }`: the candidate spread into a record with an id. */
  function WithId(c: Candidate, id: string): (r: MedicalRecord)
    ensures r.id == id && WithoutId(r) == c
  {
    MedicalRecord(id, c.recordType, c.title, c.date, c.description, c.details)
  }

  /** Attaching an id and stripping it again are inverse to each other. */
  lemma WithIdInverse(r: MedicalRecord)
    ensures WithId(WithoutId(r), r.id) == r
  {
  }

  /** Newest first: non-increasing by `getTime()`. */
  ghost predicate NewestFirst(s: seq<MedicalRecord>)
  {
    forall i, j :: 0 <= i < j < |s| ==> s[i].date.time >= s[j].date.time
  }
}
