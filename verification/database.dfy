/** `Database`: the supported database products, how a product is recognised
    from the `databaseProductName` the JDBC driver reports, and the row-limit
    clause template of each product.

    The product patterns are regular expressions in the source; every one of
    them is either a start-anchored alternation of literals (`^(MySQL|MariaDB)`)
    or, for DEFAULT, an unanchored literal (`Not Available`), so `find()` on
    them is a prefix test or a substring test.  The templates use the
    `java.util.Formatter` slots `%1$d` (the row count) and `%2$s` (a keyword);
    `Format` substitutes exactly those two. */
module Databases {
  import opened Base
  import opened Values
  import Text
  import Seqs

  /** The constants, in declaration order. */
  datatype Database =
    | DB2
    | DEFAULT
    | DERBY
    | H2
    | HSQL
    | MYSQL
    | ORACLE
    | POSTGRESQL
    | SQL_SERVER
    | SYBASE

  /** `values()`: every constant, in declaration order. */
  const All: seq<Database> :=
    [DB2, DEFAULT, DERBY, H2, HSQL, MYSQL, ORACLE, POSTGRESQL, SQL_SERVER, SYBASE]

  /** The position of a constant in `values()`. */
  function Ordinal(d: Database): (k: nat)
    ensures k < |All| && All[k] == d
  {
    match d
    case DB2 => 0
    case DEFAULT => 1
    case DERBY => 2
    case H2 => 3
    case HSQL => 4
    case MYSQL => 5
    case ORACLE => 6
    case POSTGRESQL => 7
    case SQL_SERVER => 8
    case SYBASE => 9
  }

  /** A product-name pattern of the only two shapes the source uses. */
  datatype Pattern =
    | Anchored(alternatives: seq<string>)   // `^(a|b|...)`
    | Anywhere(literal: string)             // an unanchored literal

  /** `getDatabaseProductName()`. */
  function ProductNamePattern(d: Database): Pattern
  {
    match d
    case DB2 => Anchored(["DB2"])
    case DEFAULT => Anywhere("Not Available")
    case DERBY => Anchored(["Apache Derby"])
    case H2 => Anchored(["H2"])
    case HSQL => Anchored(["HSQL"])
    case MYSQL => Anchored(["MySQL", "MariaDB"])
    case ORACLE => Anchored(["Oracle"])
    case POSTGRESQL => Anchored(["PostgreSQL", "EnterpriseDB"])
    case SQL_SERVER => Anchored(["Microsoft SQL Server"])
    case SYBASE => Anchored(["Sybase SQL Server", "Adaptive Server"])
  }

  predicate StartsWith(s: string, prefix: string)
  {
    |prefix| <= |s| && s[..|prefix|] == prefix
  }

  /** `matcher(name).find()`: an anchored pattern matches when one of its
      alternatives starts the name, an unanchored literal when it occurs
      anywhere in it. */
  predicate Find(p: Pattern, name: string)
  {
    match p
    case Anchored(alternatives) => exists k :: 0 <= k < |alternatives| && StartsWith(name, alternatives[k])
    case Anywhere(literal) => Text.Contains(name, literal)
  }

  predicate Matches(d: Database, name: string)
  {
    Find(ProductNamePattern(d), name)
  }

  /** The lookup's specification: `d` is the first constant whose pattern
      matches, or DEFAULT when no pattern matches. */
  predicate IsLookupResult(name: string, d: Database)
  {
    || (Matches(d, name) && forall e :: Ordinal(e) < Ordinal(d) ==> !Matches(e, name))
    || (d == DEFAULT && forall e :: !Matches(e, name))
  }

  /** The candidates from position `i` on, tried in order; DEFAULT when none
      matches. */
  function LookupFrom(name: string, i: nat): (d: Database)
    requires i <= |All|
    requires forall e :: Ordinal(e) < i ==> !Matches(e, name)
    ensures IsLookupResult(name, d)
    decreases |All| - i
  {
    if i == |All| then assert forall e :: Ordinal(e) < i; DEFAULT
    else if Matches(All[i], name) then All[i]
    else LookupFrom(name, i + 1)
  }

  /** The product recognised from a non-null name. */
  function Lookup(name: string): (d: Database)
    ensures IsLookupResult(name, d)
  {
    LookupFrom(name, 0)
  }

  /** `getDatabaseForProductName`: a null name raises NullPointerException;
      otherwise the candidates are tried in declaration order and the first
      that matches wins, DEFAULT when none does. */
  method GetDatabaseForProductName(name: Option<string>) returns (r: Result<Database>)
    ensures name.None? <==> r == Err(NullPointer)
    ensures name.Some? ==> r.Ok? && IsLookupResult(name.value, r.value)
  {
    if name.None? {
      return Err(NullPointer);
    }
    var result := DEFAULT;
    var found := false;
    var i := 0;
    while i < |All| && !found
      invariant 0 <= i <= |All|
      invariant !found ==> result == DEFAULT && forall e :: Ordinal(e) < i ==> !Matches(e, name.value)
      invariant found ==> Matches(result, name.value) && forall e :: Ordinal(e) < Ordinal(result) ==> !Matches(e, name.value)
    {
      if Matches(All[i], name.value) {
        result := All[i];
        found := true;
      }
      i := i + 1;
    }
    r := Ok(result);
  }

  /** The specification admits exactly one answer, so the loop and `Lookup`
      always agree. */
  lemma LookupIsUnique(name: string, d: Database, e: Database)
    requires IsLookupResult(name, d) && IsLookupResult(name, e)
    ensures d == e
  {
    var i, k := Ordinal(d), Ordinal(e);
  }

  /** A name that starts with one of a product's prefixes is that product,
      unless an earlier pattern matches first. */
  lemma PrefixSelectsProduct(name: string, d: Database, k: nat)
    requires ProductNamePattern(d).Anchored? && k < |ProductNamePattern(d).alternatives|
    requires StartsWith(name, ProductNamePattern(d).alternatives[k])
    requires forall e :: Ordinal(e) < Ordinal(d) ==> !Matches(e, name)
    ensures Lookup(name) == d
  {
    LookupIsUnique(name, d, Lookup(name));
  }

  /** A string without a capital N contains no `Not Available`, so DEFAULT's
      own pattern does not match it. */
  lemma NoCapitalNMeansNoDefaultMatch(name: string)
    requires 'N' !in name
    ensures !Matches(DEFAULT, name)
  {
    forall i | 0 <= i <= |name|
      ensures !Text.OccursAt(name, "Not Available", i)
    {
      assert i + 13 > |name| || name[i..i + 13][0] == name[i];
    }
  }

  /** Every alternative of an anchored product has a character at position
      `i` and it differs from the name's. */
  predicate DiffersAt(d: Database, c: char, i: nat)
  {
    && ProductNamePattern(d).Anchored?
    && forall k :: 0 <= k < |ProductNamePattern(d).alternatives| ==>
         var alt := ProductNamePattern(d).alternatives[k]; i < |alt| && alt[i] != c
  }

  /** An anchored product does not match a name that differs from each of
      its alternatives at some common position. */
  lemma AnchoredMisses(d: Database, name: string, i: nat)
    requires i < |name| && DiffersAt(d, name[i], i)
    ensures !Matches(d, name)
  {
    var alts := ProductNamePattern(d).alternatives;
    forall k | 0 <= k < |alts|
      ensures !StartsWith(name, alts[k])
    {
      assert |alts[k]| > |name| || name[..|alts[k]|][i] == name[i];
    }
  }

  /** A name without a capital N that starts with one of a product's
      prefixes is that product, when every earlier anchored product differs
      from it at one position. */
  lemma RecognisedByPrefix(name: string, d: Database, k: nat, i: nat)
    requires ProductNamePattern(d).Anchored? && k < |ProductNamePattern(d).alternatives|
    requires StartsWith(name, ProductNamePattern(d).alternatives[k])
    requires 'N' !in name && i < |name|
    requires forall e :: Ordinal(e) < Ordinal(d) && e != DEFAULT ==> DiffersAt(e, name[i], i)
    ensures Lookup(name) == d
  {
    forall e | Ordinal(e) < Ordinal(d)
      ensures !Matches(e, name)
    {
      if e == DEFAULT {
        NoCapitalNMeansNoDefaultMatch(name);
      } else {
        AnchoredMisses(e, name, i);
      }
    }
    PrefixSelectsProduct(name, d, k);
  }

  /** The DB2 and Derby product names. */
  lemma KnownDb2AndDerbyNames()
    ensures Lookup("DB2 UDB for AS/400") == DB2
    ensures Lookup("DB2/Linux") == DB2
    ensures Lookup("Apache Derby") == DERBY
  {
    RecognisedByPrefix("DB2 UDB for AS/400", DB2, 0, 0);
    RecognisedByPrefix("DB2/Linux", DB2, 0, 0);
    RecognisedByPrefix("Apache Derby", DERBY, 0, 0);
  }

  /** `H2` is H2. */
  lemma KnownH2Name()
    ensures Lookup("H2") == H2
  {
    RecognisedByPrefix("H2", H2, 0, 0);
  }

  /** HSQL shares its first letter with the earlier H2 and is told apart by the second. */
  lemma KnownHsqlName()
    ensures Lookup("HSQL Database Engine") == HSQL
  {
    RecognisedByPrefix("HSQL Database Engine", HSQL, 0, 1);
  }

  /** Both alternatives of the MySQL pattern select MYSQL. */
  lemma KnownMySqlNames()
    ensures Lookup("MariaDB") == MYSQL
    ensures Lookup("MySQL") == MYSQL
  {
    RecognisedByPrefix("MariaDB", MYSQL, 1, 0);
    RecognisedByPrefix("MySQL", MYSQL, 0, 0);
  }

  /** `Oracle` is ORACLE. */
  lemma KnownOracleName()
    ensures Lookup("Oracle") == ORACLE
  {
    RecognisedByPrefix("Oracle", ORACLE, 0, 0);
  }

  /** Both alternatives of the PostgreSQL pattern select POSTGRESQL. */
  lemma KnownPostgresNames()
    ensures Lookup("PostgreSQL") == POSTGRESQL
    ensures Lookup("EnterpriseDB") == POSTGRESQL
  {
    RecognisedByPrefix("PostgreSQL", POSTGRESQL, 0, 0);
    RecognisedByPrefix("EnterpriseDB", POSTGRESQL, 1, 0);
  }

  /** `Microsoft SQL Server` is SQL_SERVER although MYSQL's prefixes also start with M. */
  lemma KnownSqlServerName()
    ensures Lookup("Microsoft SQL Server") == SQL_SERVER
  {
    RecognisedByPrefix("Microsoft SQL Server", SQL_SERVER, 0, 1);
  }

  /** `Sybase SQL Server` is SYBASE. */
  lemma KnownSybaseName()
    ensures Lookup("Sybase SQL Server") == SYBASE
  {
    RecognisedByPrefix("Sybase SQL Server", SYBASE, 0, 0);
  }

  /** Every Adaptive Server edition is SYBASE, although DERBY's prefix also
      starts with A, as long as the name does not mention `Not Available`. */
  lemma AdaptiveServerIsSybase(edition: string)
    requires 'N' !in edition
    ensures Lookup("Adaptive Server" + edition) == SYBASE
  {
    var name := "Adaptive Server" + edition;
    assert name[..15] == "Adaptive Server";
    assert 'N' !in name by {
      assert forall i :: 15 <= i < |name| ==> name[i] == edition[i - 15];
    }
    RecognisedByPrefix(name, SYBASE, 1, 1);
  }

  /** The two Adaptive Server editions of the source's examples. */
  lemma KnownAdaptiveServerNames()
    ensures Lookup("Adaptive Server Enterprise") == SYBASE
    ensures Lookup("Adaptive Server Anywhere") == SYBASE
  {
    AdaptiveServerIsSybase(" Enterprise");
    AdaptiveServerIsSybase(" Anywhere");
    assert "Adaptive Server" + " Enterprise" == "Adaptive Server Enterprise";
    assert "Adaptive Server" + " Anywhere" == "Adaptive Server Anywhere";
  }

  /** A name whose first character begins none of the prefixes and which
      does not mention `Not Available` is DEFAULT. */
  lemma UnknownInitialMeansDefault(name: string)
    requires |name| > 0 && name[0] !in "DAHMOPES" && 'N' !in name
    ensures Lookup(name) == DEFAULT
  {
    forall e
      ensures !Matches(e, name)
    {
      if e == DEFAULT {
        NoCapitalNMeansNoDefaultMatch(name);
      } else {
        AnchoredMisses(e, name, 0);
      }
    }
    LookupIsUnique(name, DEFAULT, Lookup(name));
  }

  /** Names that start with none of the prefixes fall back to DEFAULT. */
  lemma UnknownProductNames()
    ensures Lookup("CUBRID") == DEFAULT
    ensures Lookup("HDB") == DEFAULT
    ensures Lookup("Informix Dynamic Server") == DEFAULT
  {
    UnknownInitialMeansDefault("CUBRID");
    UnknownInitialMeansDefault("Informix Dynamic Server");
    var name := "HDB";
    forall e
      ensures !Matches(e, name)
    {
      if e == DEFAULT {
        NoCapitalNMeansNoDefaultMatch(name);
      } else if e == HSQL {
        assert !StartsWith(name, "HSQL");
      } else {
        AnchoredMisses(e, name, if e == H2 then 1 else 0);
      }
    }
    LookupIsUnique(name, DEFAULT, Lookup(name));
  }

  /** DEFAULT's pattern is unanchored and tried second, so a name that
      mentions `Not Available` is DEFAULT even when it starts with the prefix
      of a later product. */
  lemma DefaultShadowsLaterProducts(rest: string)
    ensures Lookup("Apache Derby Not Available" + rest) == DEFAULT
  {
    var name := "Apache Derby Not Available" + rest;
    Text.ContainsWitness(name, "Not Available", "Apache Derby ", rest);
    assert !StartsWith(name, "DB2") by { assert name[0] == 'A'; }
    LookupIsUnique(name, DEFAULT, Lookup(name));
  }

  // ---------------------------------------------------------------------
  // Row-limit templates
  // ---------------------------------------------------------------------

  /** `getLimitClause()`. */
  function LimitClause(d: Database): string
  {
    match d
    case DB2 => " FETCH FIRST %1$d ROWS ONLY"
    case DEFAULT => " LIMIT %1$d"
    case DERBY => " FETCH FIRST %1$d ROWS ONLY"
    case H2 => " LIMIT %1$d"
    case HSQL => " LIMIT %1$d"
    case MYSQL => " LIMIT %1$d"
    case ORACLE => " %2$s ROWNUM<=%1$d"
    case POSTGRESQL => " LIMIT %1$d"
    case SQL_SERVER => " TOP %1$d"
    case SYBASE => ""
  }

  /** `String.format(template, count, keyword)` for templates whose only
      format specifiers are `%1$d` and `%2$s`. */
  function Format(template: string, count: int, keyword: string): string
    decreases |template|
  {
    if |template| == 0 then ""
    else if StartsWith(template, "%1$d") then IntToString(count) + Format(template[4..], count, keyword)
    else if StartsWith(template, "%2$s") then keyword + Format(template[4..], count, keyword)
    else [template[0]] + Format(template[1..], count, keyword)
  }

  /** The limit clause of a product for `count` rows. */
  function RowLimit(d: Database, count: int, keyword: string): string
  {
    Format(LimitClause(d), count, keyword)
  }

  /** Text without a `%` is copied through unchanged, whatever follows it. */
  lemma {:induction false} PlainTextIsCopied(pre: string, post: string, count: int, keyword: string)
    requires '%' !in pre
    ensures Format(pre + post, count, keyword) == pre + Format(post, count, keyword)
    decreases |pre|
  {
    if |pre| > 0 {
      var s := pre + post;
      var rest := Format(post, count, keyword);
      assert s[0] == pre[0];
      assert !StartsWith(s, "%1$d") && !StartsWith(s, "%2$s") by {
        assert |s| < 4 || s[..4][0] == s[0];
      }
      assert Format(s, count, keyword) == [s[0]] + Format(s[1..], count, keyword);
      assert s[1..] == pre[1..] + post;
      assert '%' !in pre[1..];
      PlainTextIsCopied(pre[1..], post, count, keyword);
      assert Format(s, count, keyword) == [pre[0]] + (pre[1..] + rest);
      assert pre == [pre[0]] + pre[1..];
      Seqs.ConcatAssoc([pre[0]], pre[1..], rest);
    } else {
      assert pre + post == post;
    }
  }

  /** The count slot is replaced by the count's decimal text. */
  lemma CountSlotIsReplaced(pre: string, post: string, count: int, keyword: string)
    requires '%' !in pre
    ensures Format(pre + "%1$d" + post, count, keyword)
         == pre + IntToString(count) + Format(post, count, keyword)
  {
    var slot := "%1$d" + post;
    assert pre + "%1$d" + post == pre + slot;
    PlainTextIsCopied(pre, slot, count, keyword);
    assert StartsWith(slot, "%1$d") && slot[4..] == post;
  }

  /** The keyword slot is replaced by the keyword, verbatim. */
  lemma KeywordSlotIsReplaced(pre: string, post: string, count: int, keyword: string)
    requires '%' !in pre
    ensures Format(pre + "%2$s" + post, count, keyword)
         == pre + keyword + Format(post, count, keyword)
  {
    var slot := "%2$s" + post;
    assert pre + "%2$s" + post == pre + slot;
    PlainTextIsCopied(pre, slot, count, keyword);
    assert StartsWith(slot, "%2$s") && slot[4..] == post;
    assert !StartsWith(slot, "%1$d") by { assert slot[..4][1] == '2'; }
  }

  /** A template whose only slot is the count: the count's text between the
      template's own text. */
  lemma CountOnlyTemplate(pre: string, post: string, count: int, keyword: string)
    requires '%' !in pre && '%' !in post
    ensures Format(pre + "%1$d" + post, count, keyword) == pre + IntToString(count) + post
  {
    CountSlotIsReplaced(pre, post, count, keyword);
    PlainTextIsCopied(post, "", count, keyword);
    assert post + "" == post;
    assert Format("", count, keyword) == "";
  }

  /** What each product's clause reads for `count` rows. */
  lemma RowLimitText(d: Database, count: int, keyword: string)
    ensures d == DB2 || d == DERBY ==>
              RowLimit(d, count, keyword) == " FETCH FIRST " + IntToString(count) + " ROWS ONLY"
    ensures d == DEFAULT || d == H2 || d == HSQL || d == MYSQL || d == POSTGRESQL ==>
              RowLimit(d, count, keyword) == " LIMIT " + IntToString(count)
    ensures d == SQL_SERVER ==> RowLimit(d, count, keyword) == " TOP " + IntToString(count)
    ensures d == ORACLE ==> RowLimit(d, count, keyword) == " " + keyword + " ROWNUM<=" + IntToString(count)
    ensures d == SYBASE ==> RowLimit(d, count, keyword) == ""
  {
    match d
    case DB2 =>
      assert LimitClause(d) == " FETCH FIRST " + "%1$d" + " ROWS ONLY";
      CountOnlyTemplate(" FETCH FIRST ", " ROWS ONLY", count, keyword);
    case DERBY =>
      assert LimitClause(d) == " FETCH FIRST " + "%1$d" + " ROWS ONLY";
      CountOnlyTemplate(" FETCH FIRST ", " ROWS ONLY", count, keyword);
    case SQL_SERVER =>
      assert LimitClause(d) == " TOP " + "%1$d" + "";
      CountOnlyTemplate(" TOP ", "", count, keyword);
    case ORACLE =>
      OracleRowLimit(count, keyword);
    case SYBASE =>
    case _ =>
      assert LimitClause(d) == " LIMIT " + "%1$d" + "";
      CountOnlyTemplate(" LIMIT ", "", count, keyword);
  }

  /** Every clause but SYBASE's holds the row count; SYBASE's is empty. */
  lemma RowLimitHoldsCount(d: Database, count: int, keyword: string)
    ensures d == SYBASE <==> RowLimit(d, count, keyword) == ""
    ensures d != SYBASE ==> Text.Contains(RowLimit(d, count, keyword), IntToString(count))
  {
    RowLimitText(d, count, keyword);
    var r, n := RowLimit(d, count, keyword), IntToString(count);
    if d == DB2 || d == DERBY {
      Text.ContainsWitness(r, n, " FETCH FIRST ", " ROWS ONLY");
    } else if d == SQL_SERVER {
      Text.ContainsWitness(r, n, " TOP ", "");
    } else if d == ORACLE {
      Text.ContainsWitness(r, n, " " + keyword + " ROWNUM<=", "");
    } else if d != SYBASE {
      Text.ContainsWitness(r, n, " LIMIT ", "");
    }
  }

  /** ORACLE's clause puts the keyword before `ROWNUM<=count`. */
  lemma OracleRowLimit(count: int, keyword: string)
    ensures RowLimit(ORACLE, count, keyword) == " " + keyword + " ROWNUM<=" + IntToString(count)
  {
    var n := IntToString(count);
    var tail := " ROWNUM<=" + "%1$d" + "";
    assert LimitClause(ORACLE) == " " + "%2$s" + tail;
    assert Format(tail, count, keyword) == " ROWNUM<=" + n by {
      CountSlotIsReplaced(" ROWNUM<=", "", count, keyword);
      assert Format("", count, keyword) == "";
    }
    KeywordSlotIsReplaced(" ", tail, count, keyword);
    Seqs.ConcatAssoc(" " + keyword, " ROWNUM<=", n);
  }
}
