/**
 * The immutable mail record produced by the watcher.  A Dafny datatype value
 * cannot be updated in place, which is what the get-only properties of the
 * source record promise: every field keeps the value given at construction.
 */
module Mails {

  datatype Mail = Mail(Id: string, From: string, Subject: string, Body: string)

  /** Constructing a mail stores each argument in the field of the same name. */
  lemma ConstructionStoresFields(id: string, from: string, subject: string, body: string)
    ensures var m := Mail(id, from, subject, body);
      m.Id == id && m.From == from && m.Subject == subject && m.Body == body
  {
  }
}
