/** The serial number that binds an attestable SBOM to its content, for any digest and any UUID derivation. */
module DocumentIdentity {
  import opened Prelude

  /** Top-level values; whatever else a document holds is one of `Other`. */
  datatype Value = Text(s: string) | Integer(n: int) | Boolean(b: bool) | Other(code: nat)

  type Document = map<string, Value>

  const SERIAL := "serialNumber"
  const URL_PREFIX := "https://github.com/ContextualWisdomLab/EgressWeave/sbom/sha256/"
  const SCHEMA := "https://cyclonedx.org/schema/bom-1.7.schema.json"

  /**
   What is not modelled: `strict` decides strict JSON and `canonical` prints it,
   `digest` is SHA-256 in hex and `urn` the UUID version 5 of an identity URL.
   */
  datatype Primitives = Primitives(
    strict: Document -> bool, canonical: Document -> string, digest: string -> string, urn: string -> string)

  /** `==` as Python compares top-level values: `True` equals 1. */
  predicate PythonEqual(a: Value, b: Value) {
    a == b
    || (a.Boolean? && b.Integer? && b.n == if a.b then 1 else 0)
    || (b.Boolean? && a.Integer? && a.n == if b.b then 1 else 0)
  }

  predicate FieldEquals(d: Document, field: string, expected: Value) {
    field in d && PythonEqual(d[field], expected)
  }

  /** `_validate_foundation_sbom`. */
  predicate Foundation(d: Document) {
    && FieldEquals(d, "$schema", Text(SCHEMA))
    && FieldEquals(d, "bomFormat", Text("CycloneDX"))
    && FieldEquals(d, "specVersion", Text("1.7"))
    && FieldEquals(d, "version", Integer(1))
    && d["version"].Integer?
  }

  function IdentityUrl(p: Primitives, d: Document): string {
    URL_PREFIX + p.digest(p.canonical(d))
  }

  /** `_serial_number`; None when the document is not strict JSON. */
  function SerialNumber(p: Primitives, d: Document): Option<Value> {
    if p.strict(d) then Some(Text(p.urn(IdentityUrl(p, d)))) else None
  }

  /** `build_attestable_sbom`, from the document of the foundation generator on. */
  function Build(p: Primitives, foundation: Document): Option<Document> {
    if !Foundation(foundation) || SERIAL in foundation then None
    else
      match SerialNumber(p, foundation)
      case None => None
      case Some(serial) => Some(foundation[SERIAL := serial])
  }

  /** `_validate_attestable_sbom`. */
  predicate Validate(p: Primitives, d: Document) {
    && SERIAL in d && d[SERIAL].Text?
    && (var unsigned := d - {SERIAL};
        && Foundation(unsigned)
        && SerialNumber(p, unsigned) == Some(d[SERIAL]))
  }

  /** The writer accepts exactly what the builder makes. */
  lemma ValidIffBuilt(p: Primitives, d: Document)
    ensures Validate(p, d) <==> exists foundation :: Build(p, foundation) == Some(d)
  {
    if Validate(p, d) {
      var unsigned := d - {SERIAL};
      assert unsigned[SERIAL := d[SERIAL]] == d;
      assert Build(p, unsigned) == Some(d);
    }
    forall foundation | Build(p, foundation) == Some(d) ensures Validate(p, d) {
      assert d - {SERIAL} == foundation;
    }
  }

  /**
   A document is accepted exactly if, besides strict JSON, it has these five fields: the
   last of them derived from everything else it holds.
   */
  lemma AcceptedFields(p: Primitives, d: Document)
    ensures Validate(p, d) <==>
              && p.strict(d - {"serialNumber"})
              && "$schema" in d && d["$schema"] == Text("https://cyclonedx.org/schema/bom-1.7.schema.json")
              && "bomFormat" in d && d["bomFormat"] == Text("CycloneDX")
              && "specVersion" in d && d["specVersion"] == Text("1.7")
              && "version" in d && d["version"] == Integer(1)
              && "serialNumber" in d
              && d["serialNumber"]
                 == Text(p.urn("https://github.com/ContextualWisdomLab/EgressWeave/sbom/sha256/"
                               + p.digest(p.canonical(d - {"serialNumber"}))))
  {
    assert SERIAL == "serialNumber" && SERIAL[0] == 's' && SERIAL[1] == 'e';
  }

  /** Two inputs of `f` that differ and have one result. */
  ghost predicate Collision(f: string -> string, x: string, y: string) {
    x != y && f(x) == f(y)
  }

  /**
   Two different documents are accepted with one serial number only if their
   unsigned parts differ, and these are printed alike, or their printed texts
   collide under the digest, or the identity URLs collide under the UUID.
   */
  lemma TamperingNeedsCollision(p: Primitives, d: Document, tampered: Document)
    requires Validate(p, d) && Validate(p, tampered) && tampered[SERIAL] == d[SERIAL] && d != tampered
    ensures var a, b := d - {SERIAL}, tampered - {SERIAL};
            && a != b
            && (|| p.canonical(a) == p.canonical(b)
                || Collision(p.digest, p.canonical(a), p.canonical(b))
                || Collision(p.urn, IdentityUrl(p, a), IdentityUrl(p, b)))
  {
    var a, b := d - {SERIAL}, tampered - {SERIAL};
    assert d == a[SERIAL := d[SERIAL]] && tampered == b[SERIAL := tampered[SERIAL]];
    assert IdentityUrl(p, a)[|URL_PREFIX|..] == p.digest(p.canonical(a));
    assert IdentityUrl(p, b)[|URL_PREFIX|..] == p.digest(p.canonical(b));
  }
}
