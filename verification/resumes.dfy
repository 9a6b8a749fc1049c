/**
  The records the application keeps: an uploaded resume, and the scored
  projection of one that the keyword ranking produces.
 */
module Resumes {

  /** One uploaded PDF: `id` stands for the random UUID the application
      draws (here a number from a counter), `name` is the file name and
      `content` the extracted text. */
  datatype Resume = Resume(id: nat, name: string, content: string)

  /** `{ ...resume, score }`: a resume together with the number of distinct
      search terms its content matched. */
  datatype ScoredResume = ScoredResume(resume: Resume, score: nat)

  /** The names already present in a store. */
  function Names(store: seq<Resume>): (names: set<string>)
    ensures forall r :: r in store ==> r.name in names
    ensures forall n :: n in names ==> exists r :: r in store && r.name == n
  {
    set r | r in store :: r.name
  }

  /** No two resumes of `store` carry the same file name. */
  predicate UniqueNames(store: seq<Resume>) {
    forall i, j :: 0 <= i < j < |store| ==> store[i].name != store[j].name
  }

  /** No two resumes of `store` carry the same id. */
  predicate DistinctIds(store: seq<Resume>) {
    forall i, j :: 0 <= i < j < |store| ==> store[i].id != store[j].id
  }

  /** Ids are distinct and all below `nextId`, so `nextId` is still unused. */
  predicate FreshIds(store: seq<Resume>, nextId: nat) {
    && DistinctIds(store)
    && (forall i :: 0 <= i < |store| ==> store[i].id < nextId)
  }
}
