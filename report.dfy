/** The notification `createVulnerabilities` shows once the server has
    answered with the number of records it created and the number it
    refused because a vulnerability with the same title already exists. */
module Report {

  /** Which of the three messages is shown. */
  datatype Outcome =
    | AllCreated  // "All <created> vulnerabilities created"
    | AllExist    // "All <duplicates> vulnerabilities title already exist"
    | Mixed       // both counts, one per line

  datatype Colour = Positive | Negative | Orange

  /** The branch on the server's counts; `duplicates === 0` is tested first,
      so an empty import (0 created, 0 duplicates) reads as all created. */
  function Classify(created: int, duplicates: int): (o: Outcome)
    ensures o == AllCreated <==> duplicates == 0
    ensures o == AllExist <==> created == 0 && duplicates > 0
    ensures o == Mixed <==> duplicates != 0 && (created != 0 || duplicates < 0)
    // with counts as the server sends them, the mixed message has both parts
    ensures created >= 0 && duplicates >= 0 && o == Mixed ==> created > 0 && duplicates > 0
  {
    if duplicates == 0 then AllCreated
    else if created == 0 && duplicates > 0 then AllExist
    else Mixed
  }

  /** The colour each message is shown in. */
  function ColourOf(o: Outcome): (c: Colour)
    ensures c == Positive <==> o == AllCreated
    ensures c == Negative <==> o == AllExist
  {
    match o
    case AllCreated => Positive
    case AllExist => Negative
    case Mixed => Orange
  }

  /** The notification is green exactly when nothing was refused, red
      exactly when everything was, and orange otherwise. */
  lemma NotificationColour(created: nat, duplicates: nat)
    ensures ColourOf(Classify(created, duplicates)) == Positive <==> duplicates == 0
    ensures ColourOf(Classify(created, duplicates)) == Negative <==> created == 0 && duplicates > 0
    ensures ColourOf(Classify(created, duplicates)) == Orange <==> created > 0 && duplicates > 0
  {
  }
}
