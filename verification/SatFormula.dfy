/** The sizes the accelerator is built for, and the meaning of the formulas it solves. */
module SatFormula {
  datatype Sizes = Sizes(maxVars: nat, maxClauses: nat, clauseLen: nat)

  /**
   Sizes that fit the register map: four bits for a variable count or index, five for a clause
   count, 512 word addresses, and packets that fit the firmware's 512-byte buffer.
   The source builds 10 variables, 20 clauses and 10 literals a clause.
   */
  type Build = s: Sizes |
      && 1 <= s.maxVars <= 15 && 1 <= s.maxClauses <= 31 && 1 <= s.clauseLen
      && 8 + s.maxClauses * s.clauseLen <= 512 && 4 + s.maxClauses * (s.clauseLen + 1) <= 512
    witness Sizes(10, 20, 10)

  /** The build is arbitrary: everything below holds for each one that fits. */
  const BUILD: Build
  const MAX_VARS := BUILD.maxVars
  const MAX_CLAUSES := BUILD.maxClauses
  const CLAUSE_LEN := BUILD.clauseLen
  const LIT_COUNT := MAX_CLAUSES * CLAUSE_LEN

  /** A clause is a list of signed, 1-based variable numbers; a formula is a list of clauses. */
  type Clause = seq<int>
  type Formula = seq<Clause>

  predicate IsLiteral(n: nat, l: int) { l != 0 && l <= n && -l <= n }

  /** The formulas the protocol is for. */
  predicate WellFormed(n: nat, f: Formula) {
    && 1 <= n <= MAX_VARS && 1 <= |f| <= MAX_CLAUSES
    && forall c :: 0 <= c < |f| ==> WellFormedClause(n, f[c])
  }

  predicate WellFormedClause(n: nat, cl: Clause) {
    |cl| <= CLAUSE_LEN && forall l :: 0 <= l < |cl| ==> IsLiteral(n, cl[l])
  }

  /** `v[i]` is the value of variable `i + 1`. */
  predicate LiteralTrue(v: seq<bool>, l: int)
    requires IsLiteral(|v|, l)
  {
    if l > 0 then v[l - 1] else !v[-l - 1]
  }

  predicate ClauseTrue(v: seq<bool>, cl: Clause)
    requires WellFormedClause(|v|, cl)
  {
    exists l :: 0 <= l < |cl| && LiteralTrue(v, cl[l])
  }

  predicate Satisfies(v: seq<bool>, f: Formula)
    requires WellFormed(|v|, f)
  {
    forall c :: 0 <= c < |f| ==> ClauseTrue(v, f[c])
  }

  ghost predicate Satisfiable(n: nat, f: Formula)
    requires WellFormed(n, f)
  {
    exists v: seq<bool> :: |v| == n && Satisfies(v, f)
  }
}
