/**
 * The records of types.ts that the reconciliation state is made of.
 * JavaScript numbers are `real` here; no arithmetic of the model depends on them.
 * A browser `File` is represented by the name it carries.
 */
module Types {
  import opened Wrappers

  datatype LineStatus = Pending | Reviewed

  /** One non-blank line of an uploaded XML file (LineData). */
  datatype LineData = LineData(id: string, content: string, status: LineStatus, comment: Option<string>)

  /** An uploaded XML file and its lines (FileData). */
  datatype FileData = FileData(id: string, name: string, content: string, lines: seq<LineData>)

  datatype LinkType = XmlLink | PdfLink

  /** A directed edge from a movement to an XML line or to a declaration file (SmartLink). */
  datatype SmartLink = SmartLink(
    linkType: LinkType,
    labelText: string,
    targetFileId: Option<string>,
    targetLineId: Option<string>,
    targetFileName: string)

  datatype CorrectionStatus = Corregido | SinCorregir

  datatype ReviewAreaData = ReviewAreaData(
    status: string,
    correctionStatus: Option<CorrectionStatus>,
    correctionDate: Option<string>)

  datatype ReviewData = ReviewData(
    documental: ReviewAreaData,
    banrep: ReviewAreaData,
    dian: ReviewAreaData,
    comments: string)

  datatype AuditOperation = AuditOperation(
    id: string,
    amount: real,
    includeInReview: bool,
    reviewData: ReviewData)

  /** One ledger entry with its operations and its links (AuditMovement). */
  datatype AuditMovement = AuditMovement(
    id: string,
    date: string,
    description: string,
    amount: real,
    sourceFile: string,
    operations: seq<AuditOperation>,
    linkedDeclarations: Option<seq<SmartLink>>,
    linkedXmls: Option<seq<SmartLink>>)

  datatype PdfAnnotation = PdfAnnotation(
    id: string, page: int, x: real, y: real, text: string, author: string, createdAt: string)

  datatype DeclarationMetadata = DeclarationMetadata(
    numero: string, fecha: string, nit: string, numeral: string,
    valor: real, moneda: string, tipoOperacion: string)

  datatype DeclarationStatus = DeclarationPending | Approved | CorrectionNeeded

  datatype DeclarationReview = DeclarationReview(
    fileId: string,
    fileName: string,
    status: DeclarationStatus,
    metadata: DeclarationMetadata,
    auditorComments: string,
    annotations: Option<seq<PdfAnnotation>>,
    reviewedBy: string,
    reviewedAt: Option<string>)

  /** Metadata extracted from a declaration file, keyed by that file's id (ProcessedDeclaration). */
  datatype ProcessedDeclaration = ProcessedDeclaration(
    id: string,
    fileName: string,
    date: string,
    amount: real,
    number: string,
    numeral: Option<string>,
    contentSample: string)

  datatype AuditDetails = AuditDetails(
    companyName: string,
    nit: string,
    startDate: string,
    endDate: string,
    auditorName: Option<string>)

  /** A registered upload (AuditFile); the binary payload is not modelled. */
  datatype AuditFile = AuditFile(id: string, fileName: string, password: Option<string>)

  datatype Category = Declaraciones | Banrep | Extractos | SoportesAduaneros | SoportesBancarios | Xmls

  /** The file registry, one list per category (AuditFileCategory). */
  datatype AuditFileCategory = AuditFileCategory(
    declaraciones: seq<AuditFile>,
    banrep: seq<AuditFile>,
    extractos: seq<AuditFile>,
    soportesAduaneros: seq<AuditFile>,
    soportesBancarios: seq<AuditFile>,
    xmls: seq<AuditFile>)
  {
    /** `registry[category]`. */
    function Get(c: Category): seq<AuditFile>
    {
      match c
      case Declaraciones => declaraciones
      case Banrep => banrep
      case Extractos => extractos
      case SoportesAduaneros => soportesAduaneros
      case SoportesBancarios => soportesBancarios
      case Xmls => xmls
    }

    /** `{ ...registry, [category]: files }`. */
    function With(c: Category, files: seq<AuditFile>): (r: AuditFileCategory)
      ensures r.Get(c) == files
      ensures forall d :: d != c ==> r.Get(d) == Get(d)
    {
      match c
      case Declaraciones => this.(declaraciones := files)
      case Banrep => this.(banrep := files)
      case Extractos => this.(extractos := files)
      case SoportesAduaneros => this.(soportesAduaneros := files)
      case SoportesBancarios => this.(soportesBancarios := files)
      case Xmls => this.(xmls := files)
    }
  }

  const EmptyRegistry: AuditFileCategory := AuditFileCategory([], [], [], [], [], [])

  /** The comment bank a new session starts with (PREDEFINED_COMMENTS). */
  const PredefinedComments: seq<string> := [
    "Legalización PARCIAL",
    "Legalización con ERROR",
    "Legalización EXTEMPORANEA",
    "Legalizado OPORTUNAMENTE",
    "NO requiere legalización por ser Devolución",
    "O.K.",
    "SIN Identificar",
    "SIN LEGALIZAR",
    "Mal Registrada"
  ]

  /** Lines shown per page of the XML viewer (ITEMS_PER_PAGE). */
  const ItemsPerPage: nat := 100

  /** The 1-based page of the XML viewer on which the line at `index` is shown. */
  function PageOf(index: nat): (page: nat)
    ensures page >= 1
    ensures (page - 1) * ItemsPerPage <= index < page * ItemsPerPage
  {
    index / ItemsPerPage + 1
  }
}
