/**
 * The closed shape a posting rule can see of an operational fact (`source-facts.ts`), and the
 * line template that reads it (`posting-rules.ts`). Amounts are integers of micro-units.
 */
module Facts {
  import opened Prelude
  import opened Calendar

  datatype FactType = Order | OrderFee | OrderRefund | ExpenseFact | AcquisitionCost | InventoryMovement

  datatype FactRef = FactRef(kind: FactType, id: nat)

  datatype AmountSource =
    | TotalAmount | Subtotal | Shipping | Discount | Tax | Fee | Refund | Net
    | CostBasis | QuantityTimesBasis
    | Remainder

  datatype Attribute =
    | Provider | Channel | FeeType | FeeDirection | MovementKind | SourceKind | ExpenseCategory | Capitalize

  datatype Allocation = Allocation(account: Option<nat>, amount: int, entity: Option<nat>, dimension: Option<nat>)

  datatype SourceFact = SourceFact(
    ref: FactRef,
    date: Day,
    entity: Option<nat>,
    currency: string,
    amounts: map<AmountSource, int>,
    attributes: map<Attribute, string>,
    matchAmount: int,
    allocations: seq<Allocation>,
    ineligible: bool)

  /** A line names its account by id, or by the handle that resolves in whichever book it posts to. */
  datatype AccountRef = ById(id: nat) | BySystemKey(key: string)

  datatype RuleLine = RuleLine(
    account: AccountRef,
    source: AmountSource,
    multiplier: int,
    inheritEntity: bool,
    dimension: Option<nat>)

  /** A rule version as the engine sees it: identity, the attributes it matches on, its template. */
  datatype ResolvedRule = ResolvedRule(
    code: string,
    versionId: nat,
    version: nat,
    matchedAttributes: set<Attribute>,
    lines: seq<RuleLine>)

  /** The canonical tuple `fingerprintFact` hashes; the hash is taken to be injective. */
  datatype Fingerprint = Fingerprint(
    ref: FactRef,
    date: Day,
    entity: Option<nat>,
    currency: string,
    amounts: map<AmountSource, int>,
    matched: map<Attribute, string>,
    allocations: seq<Allocation>)

  /**
   * Posting keys. A caller may supply any text; the engine mints `pr:...` keys and a reversal
   * prefixes `rev:`. Rule codes aside, the parts of a minted key have fixed shapes, so the
   * string is an injective rendering of these constructors.
   */
  datatype PostingKey =
    | Text(text: string)
    | RuleKey(code: string, version: nat, ref: FactRef, fingerprint: Fingerprint)
    | RevKey(of: PostingKey)
}
