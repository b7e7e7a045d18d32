/** The inbound cloud event and its payload (Models/Dto/EventRoleAssignmentDataDto.cs). */
module Events {
  import opened Wrappers
  import opened Domain

  /** One (heir, court role) pair of the court's authoritative list. */
  datatype HeirRole = HeirRole(nin: string, role: string)

  /** The case status of the estate; only `Feilfort` ("wrongly filed") is
      acted upon. */
  datatype CaseStatus = Mottatt | Ferdigbehandlet | Feilfort | OverfortAnnenDomstol

  /** The deserialised `Data` of an event. */
  datatype EventData = EventData(caseId: string, caseStatus: Option<CaseStatus>, heirRoles: seq<HeirRole>)

  /** A delivered event. `data` is `None` when the event carries no data;
      `time` is the business timestamp the ordering guard compares. */
  datatype CloudEvent = CloudEvent(
    id: string,
    eventType: string,
    subject: string,
    time: Instant,
    data: Option<EventData>)

  predicate IsFeilfort(d: EventData) {
    d.caseStatus == Some(Feilfort)
  }
}
