/** The company schema: a required, unique name and two denormalised
    counters, both defaulting to 0. */
module CompanyModel {
  import opened Results
  import opened Fields

  datatype Company = Company(
    companyName: string,
    numberOfDepartments: int,
    numberOfEmployees: int)

  /** What `Company.create({ companyName })` stores: the counters take their
      schema default. */
  function NewCompany(name: string): (c: Company)
    ensures c.companyName == name
    ensures c.numberOfDepartments == 0 && c.numberOfEmployees == 0
  {
    Company(name, 0, 0)
  }

  /** The schema's per-document validators: `companyName` is required.
      Uniqueness is an index over the whole collection (see `NameInUse`). */
  predicate ValidCompany(c: Company) {
    Required(c.companyName)
  }

  /** Some company in `companies` already carries `name`; the unique index on
      `companyName` refuses to write a second one. */
  predicate NameInUse(companies: map<Id, Company>, name: string) {
    exists k :: k in companies && companies[k].companyName == name
  }

  /** No two companies share a name. */
  ghost predicate NamesUnique(companies: map<Id, Company>) {
    forall a, b :: a in companies && b in companies && a != b ==>
      companies[a].companyName != companies[b].companyName
  }

  /** A name that is not in use can be added, and the names stay unique. */
  lemma AddFreshNameKeepsUnique(companies: map<Id, Company>, id: Id, c: Company)
    requires NamesUnique(companies)
    requires !NameInUse(companies - {id}, c.companyName)
    ensures NamesUnique(companies[id := c])
  {
    var m := companies[id := c];
    forall a, b | a in m && b in m && a != b
      ensures m[a].companyName != m[b].companyName
    {
      if a == id {
        assert b in companies - {id};
      } else if b == id {
        assert a in companies - {id};
      }
    }
  }

  /** Changing only counters keeps every name valid and the names unique. */
  lemma RecountKeepsNames(before: map<Id, Company>, after: map<Id, Company>)
    requires after.Keys == before.Keys
    requires forall k :: k in before ==> after[k].companyName == before[k].companyName
    ensures (forall k :: k in before ==> ValidCompany(before[k])) ==> forall k :: k in after ==> ValidCompany(after[k])
    ensures NamesUnique(before) ==> NamesUnique(after)
  {
  }
}
