/** The shared value types: references, cells, capabilities, policies and audit entries. */
module Contract {

  datatype Option<+T> = None | Some(value: T)

  /** The exceptions the units raise, by Python class. */
  datatype Error = ValueError | KeyError | IndexError

  datatype Result<+T> = Ok(value: T) | Err(error: Error)

  type RowKey = string
  type CellId = string
  type PrincipalId = string

  /** Which principal each row is grouped under. */
  type Labelling = map<RowKey, PrincipalId>

  /** Locates a value at its source; `locator` is opaque outside the locator codec. */
  datatype Reference = Reference(source: string, locator: string, resolver: string)

  datatype TypeDescriptor = TypeDescriptor(kind: string, shape: Option<string>, ontologyNode: string)

  /** `expiry` and every other point in time is an integer number of microseconds. */
  datatype Capability = Capability(holder: string, purpose: string, caveats: seq<string>, expiry: int)

  /** The digest that names a capability, kept symbolic. */
  datatype CapabilityRef = IdOf(capability: Capability)

  /** The query-time dictionary: the two entries the units read by name, and all the rest. */
  datatype Context = Context(symbolic: bool, policyId: Option<string>, entries: map<string, string>)

  type Predicate = (Capability, Context) -> bool

  datatype CellPolicy = CellPolicy(
    policyId: string,
    seeExistence: Predicate,
    seeType: Predicate,
    seeState: Predicate,
    dereference: Predicate)

  datatype MaterialisedValue = MaterialisedValue(
    value: string,
    fetchedUnder: CapabilityRef,
    fetchedAt: int,
    ttl: int,
    originPolicyId: string)

  /** A reference-cell. Its state is "materialised" exactly when `materialised` holds a value. */
  datatype Cell = Cell(
    cellId: CellId,
    ref: Reference,
    typ: TypeDescriptor,
    policyId: string,
    materialised: Option<MaterialisedValue>)

  datatype Event = Project | Fetch | OnboardingRead | Classify | Resolve | Deny

  datatype Decision = Allow | Refuse

  datatype AuditEntry = AuditEntry(
    event: Event,
    ts: int,
    principal: string,
    capabilityId: CapabilityRef,
    cellId: Option<CellId>,
    policyVersion: int,
    decision: Decision)
}
