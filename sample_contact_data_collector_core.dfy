/**
 * The consent part of `SampleContactDataCollectorCore`: the value transformations applied
 * while writing, the loop that groups the consent-agreement rows of a data subject by
 * consent and by consent content, the choice of what is written for each consent content,
 * and the contact checks of `CollectData`.
 *
 * A row of the consent query joins a consent agreement with its consent and, when one exists
 * for the agreement's content hash, with a consent archive; it is given here as a value.
 */
module SampleContactDataCollectorCore {
  import opened Wrappers
  import opened Text
  import opened Seqs
  import opened PersonalData
  import opened HumanReadablePersonalDataWriter

  // ---------------------------------------------------------------------------------------
  // Rows and column lists

  /**
   * A consent agreement (`ConsentAgreementInfo`); `time` is `ConsentAgreementTime` in ticks.
   * `revoked` is the typed `ConsentAgreementRevoked` property, read from the same column as the
   * value `info` holds under that name.
   */
  datatype Agreement = Agreement(consentId: int, revoked: bool, consentHash: string, time: int, info: BaseInfo)

  /** A consent (`ConsentInfo`) with the hash of its current content. */
  datatype Consent = Consent(hash: string, displayName: string, lastModified: int, info: BaseInfo)

  /** A consent archive (`ConsentArchiveInfo`): an earlier version of a consent's content. */
  datatype Archive = Archive(lastModified: int, info: BaseInfo)

  /** One row of the consent query, read as each of the three info objects. */
  datatype ConsentRow = ConsentRow(agreement: Agreement, consent: Consent, archive: Archive)

  const ConsentAgreementInfoColumns: seq<CollectedColumn> := [
    CollectedColumn("ConsentAgreementGuid", "GUID"),
    CollectedColumn("ConsentAgreementRevoked", "Consent action"),
    CollectedColumn("ConsentAgreementTime", "Performed on")
  ]

  const ConsentInfoColumns: seq<CollectedColumn> := [
    CollectedColumn("ConsentGUID", "GUID"),
    CollectedColumn("ConsentDisplayName", "Consent name"),
    CollectedColumn("ConsentContent", "Full text")
  ]

  const ConsentArchiveInfoColumns: seq<CollectedColumn> := [
    CollectedColumn("ConsentArchiveGUID", "GUID"),
    CollectedColumn("ConsentArchiveContent", "Full text")
  ]

  // ---------------------------------------------------------------------------------------
  // Value transformations

  /** `TransformGenderValue`: the gender code of a contact as text; other columns pass unchanged. */
  function TransformGenderValue(columnName: string, columnValue: Value): (r: Value)
    ensures !EqualsIgnoreCase(columnName, "ContactGender") ==> r == columnValue
    ensures EqualsIgnoreCase(columnName, "ContactGender") ==>
      r in {TextValue("male"), TextValue("female"), TextValue("undefined")}
    ensures EqualsIgnoreCase(columnName, "ContactGender") ==>
      (r == TextValue("male") <==> columnValue == IntValue(1)) &&
      (r == TextValue("female") <==> columnValue == IntValue(2))
  {
    if EqualsIgnoreCase(columnName, "ContactGender") then
      match columnValue
      case IntValue(1) => TextValue("male")
      case IntValue(2) => TextValue("female")
      case _ => TextValue("undefined")
    else columnValue
  }

  /**
   * `TransformConsentAction`: the revoked flag of an agreement as text. The cast to `bool`
   * throws for a value of any other type.
   */
  function TransformConsentAction(columnName: string, columnValue: Value): (r: Result<Value, Exception>)
    ensures !EqualsIgnoreCase(columnName, "ConsentAgreementRevoked") ==> r == Success(columnValue)
    ensures EqualsIgnoreCase(columnName, "ConsentAgreementRevoked") ==>
      (r.Failure? <==> !columnValue.BoolValue?) &&
      (r.Failure? ==> r.error == InvalidCast) &&
      (columnValue.BoolValue? ==> r == Success(TextValue(if columnValue.b then "Revoked" else "Agreed")))
  {
    if EqualsIgnoreCase(columnName, "ConsentAgreementRevoked") then
      if columnValue.BoolValue? then Success(TextValue(if columnValue.b then "Revoked" else "Agreed"))
      else Failure(InvalidCast)
    else Success(columnValue)
  }

  /** The gender transformation matches the column name whatever its letter case. */
  lemma GenderColumnIgnoresCase()
    ensures TransformGenderValue("contactgender", IntValue(2)) == TextValue("female")
    ensures TransformGenderValue("ContactGender", LongValue(1)) == TextValue("undefined")
  {
    assert EqualsIgnoreCase("contactgender", "ContactGender") by {
      assert UpperAscii('c') == 'C' && UpperAscii('g') == 'G';
    }
  }

  /** `IsAgreementOfDifferentConsentContent`: an ordinal, case-sensitive comparison of hashes. */
  predicate IsAgreementOfDifferentConsentContent(consentAgreementInfo: Agreement, consentInfo: Consent)
  {
    consentAgreementInfo.consentHash != consentInfo.hash
  }

  /** Hashes that differ only in letter case count as different content. */
  lemma DifferentContentIsCaseSensitive(a: Agreement, c: Consent)
    requires a.consentHash == "ab" && c.hash == "AB"
    ensures IsAgreementOfDifferentConsentContent(a, c) && Fold(a.consentHash) == Fold(c.hash)
  {
    assert a.consentHash[0] != c.hash[0];
  }

  // ---------------------------------------------------------------------------------------
  // The dictionaries filled by the grouping loop

  /**
   * `consentContentAgreements`: lists keyed by consent hash under an ordinal ignore-case
   * comparer, so keyed here by the folded hash, with the keys in insertion order (the order in
   * which the dictionary enumerates its values).
   */
  datatype ContentAgreements = ContentAgreements(order: seq<string>, lists: map<string, seq<Agreement>>)
  {
    /** The keys in `order` are the keys of `lists`, each once. */
    ghost predicate Valid()
    {
      (forall k :: k in order <==> k in lists) &&
      (forall p, q :: 0 <= p < q < |order| ==> order[p] != order[q])
    }
  }

  /** The four dictionaries after the loop. */
  datatype Grouping = Grouping(
    consents: map<int, Consent>,
    revocations: map<int, seq<Agreement>>,
    archives: map<string, Archive>,
    agreements: ContentAgreements)

  /** `GetRevocationsOfSameConsent`: the list stored under `consentId`, added empty when missing. */
  method GetRevocationsOfSameConsent(consentRevocations: map<int, seq<Agreement>>, consentId: int)
    returns (revocationsOfSameConsent: seq<Agreement>, updated: map<int, seq<Agreement>>)
    ensures consentId in consentRevocations ==>
      revocationsOfSameConsent == consentRevocations[consentId] && updated == consentRevocations
    ensures consentId !in consentRevocations ==>
      revocationsOfSameConsent == [] && updated == consentRevocations[consentId := []]
  {
    if consentId in consentRevocations {
      revocationsOfSameConsent := consentRevocations[consentId];
      updated := consentRevocations;
    } else {
      revocationsOfSameConsent := [];
      updated := consentRevocations[consentId := revocationsOfSameConsent];
    }
  }

  /**
   * `GetAgreementsOfSameConsentContent`: the list stored under the hash, compared ignoring
   * case; a missing key is added at the end with an empty list.
   */
  method GetAgreementsOfSameConsentContent(consentContentAgreements: ContentAgreements, consentHash: string)
    returns (agreementsOfSameConsent: seq<Agreement>, updated: ContentAgreements)
    requires consentContentAgreements.Valid()
    ensures updated.Valid()
    ensures Fold(consentHash) in consentContentAgreements.lists ==>
      agreementsOfSameConsent == consentContentAgreements.lists[Fold(consentHash)] && updated == consentContentAgreements
    ensures Fold(consentHash) !in consentContentAgreements.lists ==>
      && agreementsOfSameConsent == []
      && updated == ContentAgreements(consentContentAgreements.order + [Fold(consentHash)],
                                      consentContentAgreements.lists[Fold(consentHash) := []])
  {
    var key := Fold(consentHash);
    if key in consentContentAgreements.lists {
      agreementsOfSameConsent := consentContentAgreements.lists[key];
      updated := consentContentAgreements;
    } else {
      agreementsOfSameConsent := [];
      updated := ContentAgreements(consentContentAgreements.order + [key],
                                   consentContentAgreements.lists[key := agreementsOfSameConsent]);
    }
  }

  // ---------------------------------------------------------------------------------------
  // The grouping loop

  const NoGrouping := Grouping(map[], map[], map[], ContentAgreements([], map[]))

  /** One iteration of the loop over the rows. */
  function GroupRow(g: Grouping, row: ConsentRow): Grouping
  {
    var a := row.agreement;
    var consents := if a.consentId in g.consents then g.consents else g.consents[a.consentId := row.consent];
    if a.revoked then
      var list := if a.consentId in g.revocations then g.revocations[a.consentId] else [];
      g.(consents := consents, revocations := g.revocations[a.consentId := list + [a]])
    else
      var key := Fold(a.consentHash);
      var known := key in g.agreements.lists;
      var list := if known then g.agreements.lists[key] else [];
      var order := if known then g.agreements.order else g.agreements.order + [key];
      var archives :=
        if IsAgreementOfDifferentConsentContent(a, consents[a.consentId]) && key !in g.archives
        then g.archives[key := row.archive] else g.archives;
      g.(consents := consents, archives := archives,
         agreements := ContentAgreements(order, g.agreements.lists[key := list + [a]]))
  }

  /** The dictionaries after the loop has run over `rows`. */
  function Grouped(rows: seq<ConsentRow>): Grouping
  {
    if rows == [] then NoGrouping else GroupRow(Grouped(rows[..|rows| - 1]), rows[|rows| - 1])
  }

  /** The loop of `WriteConsents(contactIDs)` over the rows of the consent query. */
  method GroupConsentRows(consentsData: seq<ConsentRow>) returns (g: Grouping)
    ensures g == Grouped(consentsData)
    ensures g.agreements.Valid()
  {
    var consents: map<int, Consent> := map[];
    var consentRevocations: map<int, seq<Agreement>> := map[];
    var consentContentArchives: map<string, Archive> := map[];
    var consentContentAgreements := ContentAgreements([], map[]);
    var i := 0;
    while i < |consentsData|
      invariant 0 <= i <= |consentsData|
      invariant consentContentAgreements.Valid()
      invariant Grouped(consentsData[..i]) == Grouping(consents, consentRevocations, consentContentArchives, consentContentAgreements)
    {
      consents, consentRevocations, consentContentArchives, consentContentAgreements :=
        GroupConsentRow(consents, consentRevocations, consentContentArchives, consentContentAgreements, consentsData[i]);
      assert consentsData[..i + 1][..i] == consentsData[..i];
      i := i + 1;
    }
    assert consentsData[..i] == consentsData;
    g := Grouping(consents, consentRevocations, consentContentArchives, consentContentAgreements);
  }

  /** The body of the loop of `GroupConsentRows`, for one row. */
  method GroupConsentRow(
    consents: map<int, Consent>,
    consentRevocations: map<int, seq<Agreement>>,
    consentContentArchives: map<string, Archive>,
    consentContentAgreements: ContentAgreements,
    row: ConsentRow)
    returns (
    consents': map<int, Consent>,
    consentRevocations': map<int, seq<Agreement>>,
    consentContentArchives': map<string, Archive>,
    consentContentAgreements': ContentAgreements)
    requires consentContentAgreements.Valid()
    ensures consentContentAgreements'.Valid()
    ensures Grouping(consents', consentRevocations', consentContentArchives', consentContentAgreements') ==
      GroupRow(Grouping(consents, consentRevocations, consentContentArchives, consentContentAgreements), row)
  {
    consents', consentRevocations', consentContentArchives', consentContentAgreements' :=
      consents, consentRevocations, consentContentArchives, consentContentAgreements;
    var consentAgreementInfo := row.agreement;
    if consentAgreementInfo.consentId !in consents' {
      consents' := consents'[consentAgreementInfo.consentId := row.consent];
    }
    var consentInfo := consents'[consentAgreementInfo.consentId];
    if consentAgreementInfo.revoked {
      var revocationsOfSameConsent;
      revocationsOfSameConsent, consentRevocations' := GetRevocationsOfSameConsent(consentRevocations', consentAgreementInfo.consentId);
      consentRevocations' := consentRevocations'[consentAgreementInfo.consentId := revocationsOfSameConsent + [consentAgreementInfo]];
    } else {
      consentContentArchives', consentContentAgreements' :=
        GroupAgreement(consentInfo, consentContentArchives, consentContentAgreements, row);
    }
  }

  /** The agreeing branch of the loop body: file the agreement under its content, and the archive of a changed content. */
  method GroupAgreement(
    consentInfo: Consent,
    consentContentArchives: map<string, Archive>,
    consentContentAgreements: ContentAgreements,
    row: ConsentRow)
    returns (consentContentArchives': map<string, Archive>, consentContentAgreements': ContentAgreements)
    requires consentContentAgreements.Valid()
    ensures consentContentAgreements'.Valid()
    ensures var key := Fold(row.agreement.consentHash);
      var known := key in consentContentAgreements.lists;
      && consentContentAgreements'.order ==
           (if known then consentContentAgreements.order else consentContentAgreements.order + [key])
      && consentContentAgreements'.lists ==
           consentContentAgreements.lists[key := (if known then consentContentAgreements.lists[key] else []) + [row.agreement]]
      && consentContentArchives' ==
           (if IsAgreementOfDifferentConsentContent(row.agreement, consentInfo) && key !in consentContentArchives
            then consentContentArchives[key := row.archive] else consentContentArchives)
  {
    var consentAgreementInfo := row.agreement;
    var key := Fold(consentAgreementInfo.consentHash);
    var agreementsOfSameConsentContent;
    agreementsOfSameConsentContent, consentContentAgreements' :=
      GetAgreementsOfSameConsentContent(consentContentAgreements, consentAgreementInfo.consentHash);
    consentContentAgreements' := consentContentAgreements'.(lists :=
      consentContentAgreements'.lists[key := agreementsOfSameConsentContent + [consentAgreementInfo]]);
    consentContentArchives' := consentContentArchives;
    if IsAgreementOfDifferentConsentContent(consentAgreementInfo, consentInfo) && key !in consentContentArchives' {
      consentContentArchives' := consentContentArchives'[key := row.archive];
    }
  }

  // ---------------------------------------------------------------------------------------
  // What the grouping loop computes

  /** The agreements of the rows, in row order. */
  function Agreements(rows: seq<ConsentRow>): seq<Agreement>
  {
    seq(|rows|, i requires 0 <= i < |rows| => rows[i].agreement)
  }

  lemma AgreementsSnoc(rows: seq<ConsentRow>)
    requires rows != []
    ensures Agreements(rows) == Agreements(rows[..|rows| - 1]) + [rows[|rows| - 1].agreement]
  {
  }

  /** The bucket of the revocations of consent `consentId`. */
  function IsRevocationOf(consentId: int): Agreement -> bool
  {
    (a: Agreement) => a.revoked && a.consentId == consentId
  }

  /** The bucket of the agreements with content `key` (a folded hash). */
  function IsAgreementOfContent(key: string): Agreement -> bool
  {
    (a: Agreement) => !a.revoked && Fold(a.consentHash) == key
  }

  /**
   * `consentRevocations` holds, under each consent ID that has a revoking row, exactly the
   * revocations of that consent in row order; other consent IDs are absent.
   */
  lemma {:induction false} RevocationsOfConsent(rows: seq<ConsentRow>, consentId: int)
    ensures var g := Grouped(rows);
      (consentId in g.revocations <==> Filter(IsRevocationOf(consentId), Agreements(rows)) != []) &&
      (consentId in g.revocations ==> g.revocations[consentId] == Filter(IsRevocationOf(consentId), Agreements(rows)))
  {
    if rows != [] {
      var prefix := rows[..|rows| - 1];
      var a := rows[|rows| - 1].agreement;
      RevocationsOfConsent(prefix, consentId);
      AgreementsSnoc(rows);
      FilterSnoc(IsRevocationOf(consentId), Agreements(prefix), a);
    }
  }

  /**
   * `consentContentAgreements` holds, under each content (hash ignoring case) that has an
   * agreeing row, exactly the agreements with that content in row order.
   */
  lemma {:induction false} AgreementsOfContent(rows: seq<ConsentRow>, key: string)
    ensures var g := Grouped(rows);
      (key in g.agreements.lists <==> Filter(IsAgreementOfContent(key), Agreements(rows)) != []) &&
      (key in g.agreements.lists ==> g.agreements.lists[key] == Filter(IsAgreementOfContent(key), Agreements(rows)))
  {
    if rows != [] {
      var prefix := rows[..|rows| - 1];
      var a := rows[|rows| - 1].agreement;
      AgreementsOfContent(prefix, key);
      AgreementsSnoc(rows);
      FilterSnoc(IsAgreementOfContent(key), Agreements(prefix), a);
    }
  }

  /**
   * Each row lands in exactly one bucket: a revoking row among the revocations of its consent
   * and in no agreement list, any other row among the agreements of its content and in no
   * revocation list.
   */
  lemma EveryRowInOneBucket(rows: seq<ConsentRow>, i: nat)
    requires i < |rows|
    ensures var g := Grouped(rows); var a := rows[i].agreement;
      && (a.revoked ==> a.consentId in g.revocations && a in g.revocations[a.consentId])
      && (!a.revoked ==> Fold(a.consentHash) in g.agreements.lists && a in g.agreements.lists[Fold(a.consentHash)])
      && (forall id :: id in g.revocations && a in g.revocations[id] ==> a.revoked && id == a.consentId)
      && (forall key :: key in g.agreements.lists && a in g.agreements.lists[key] ==> !a.revoked && key == Fold(a.consentHash))
  {
    var g := Grouped(rows);
    var a := rows[i].agreement;
    var agreements := Agreements(rows);
    assert agreements[i] == a;
    if a.revoked {
      RevocationsOfConsent(rows, a.consentId);
      FilterMembership(IsRevocationOf(a.consentId), agreements, a);
    } else {
      AgreementsOfContent(rows, Fold(a.consentHash));
      FilterMembership(IsAgreementOfContent(Fold(a.consentHash)), agreements, a);
    }
    forall id | id in g.revocations && a in g.revocations[id]
      ensures a.revoked && id == a.consentId
    {
      RevocationsOfConsent(rows, id);
      FilterMembership(IsRevocationOf(id), agreements, a);
    }
    forall key | key in g.agreements.lists && a in g.agreements.lists[key]
      ensures !a.revoked && key == Fold(a.consentHash)
    {
      AgreementsOfContent(rows, key);
      FilterMembership(IsAgreementOfContent(key), agreements, a);
    }
  }

  /** The dictionary of agreements stays consistent: its key order lists every key once. */
  lemma {:induction false} GroupedAgreementsValid(rows: seq<ConsentRow>)
    ensures Grouped(rows).agreements.Valid()
  {
    if rows != [] {
      GroupedAgreementsValid(rows[..|rows| - 1]);
    }
  }

  /** `consents` has a key for exactly the consent IDs of the rows. */
  lemma {:induction false} ConsentKeys(rows: seq<ConsentRow>, consentId: int)
    ensures consentId in Grouped(rows).consents <==>
      exists i :: 0 <= i < |rows| && rows[i].agreement.consentId == consentId
  {
    if rows != [] {
      var prefix := rows[..|rows| - 1];
      ConsentKeys(prefix, consentId);
      assert consentId in Grouped(rows).consents ==>
          exists i :: 0 <= i < |rows| && rows[i].agreement.consentId == consentId by {
        if consentId in Grouped(prefix).consents {
          var i :| 0 <= i < |prefix| && prefix[i].agreement.consentId == consentId;
          assert rows[i] == prefix[i];
        }
      }
      assert (exists i :: 0 <= i < |rows| && rows[i].agreement.consentId == consentId) ==>
          consentId in Grouped(rows).consents by {
        if exists i :: 0 <= i < |rows| && rows[i].agreement.consentId == consentId {
          var i :| 0 <= i < |rows| && rows[i].agreement.consentId == consentId;
          if i < |prefix| {
            assert prefix[i] == rows[i];
          }
        }
      }
    }
  }

  /** A consent, once recorded, is never replaced: the dictionary only grows. */
  lemma {:induction false} ConsentsNeverOverwritten(rows: seq<ConsentRow>, k: nat)
    requires k <= |rows|
    ensures forall id :: id in Grouped(rows[..k]).consents ==>
      id in Grouped(rows).consents && Grouped(rows).consents[id] == Grouped(rows[..k]).consents[id]
  {
    if k < |rows| {
      var prefix := rows[..|rows| - 1];
      assert prefix[..k] == rows[..k];
      ConsentsNeverOverwritten(prefix, k);
    } else {
      assert rows[..k] == rows;
    }
  }

  /** The consent recorded for an ID is the one read from the first row with that ID. */
  lemma {:induction false} ConsentIsFirstRow(rows: seq<ConsentRow>, i: nat)
    requires i < |rows|
    requires forall k :: 0 <= k < i ==> rows[k].agreement.consentId != rows[i].agreement.consentId
    ensures rows[i].agreement.consentId in Grouped(rows).consents
    ensures Grouped(rows).consents[rows[i].agreement.consentId] == rows[i].consent
  {
    var id := rows[i].agreement.consentId;
    var prefix := rows[..i];
    ConsentKeys(prefix, id);
    assert id !in Grouped(prefix).consents;
    assert rows[..i + 1][..i] == prefix;
    ConsentsNeverOverwritten(rows, i + 1);
  }

  /** Every agreement and every revocation refers to a consent that was recorded. */
  lemma ConsentsCoverAgreements(rows: seq<ConsentRow>, a: Agreement)
    requires a in Agreements(rows)
    ensures a.consentId in Grouped(rows).consents
  {
    var i :| 0 <= i < |rows| && Agreements(rows)[i] == a;
    ConsentKeys(rows, a.consentId);
  }

  /** A row records an archive of its content: it agrees, to content other than its consent's current one. */
  predicate RecordsArchive(consents: map<int, Consent>, row: ConsentRow)
  {
    !row.agreement.revoked && row.agreement.consentId in consents &&
    IsAgreementOfDifferentConsentContent(row.agreement, consents[row.agreement.consentId])
  }

  /**
   * `consentContentArchives` has a key for exactly the contents of the rows that record an
   * archive, judged against the consent recorded for their ID.
   */
  lemma {:induction false} ArchiveKeys(rows: seq<ConsentRow>, key: string)
    ensures var g := Grouped(rows);
      key in g.archives <==>
        exists i :: 0 <= i < |rows| && RecordsArchive(g.consents, rows[i]) && Fold(rows[i].agreement.consentHash) == key
  {
    if rows != [] {
      var prefix := rows[..|rows| - 1];
      var last := rows[|rows| - 1];
      var g0 := Grouped(prefix);
      var g := Grouped(rows);
      ArchiveKeys(prefix, key);
      GroupRowArchives(g0, last, key);
      forall i | 0 <= i < |prefix|
        ensures RecordsArchive(g.consents, rows[i]) == RecordsArchive(g0.consents, prefix[i])
      {
        ConsentsNeverOverwritten(rows, |prefix|);
        assert rows[..|prefix|] == prefix;
        assert rows[i] == prefix[i];
        ConsentKeys(prefix, prefix[i].agreement.consentId);
      }
      assert rows == prefix + [last];
      ArchiveKeysStep(g0, g, prefix, last, key);
    }
  }

  /** The step of `ArchiveKeys`, over the groupings before and after the last row. */
  lemma ArchiveKeysStep(g0: Grouping, g: Grouping, prefix: seq<ConsentRow>, last: ConsentRow, key: string)
    requires key in g.archives <==> key in g0.archives || (RecordsArchive(g.consents, last) && Fold(last.agreement.consentHash) == key)
    requires key in g0.archives <==>
      exists i :: 0 <= i < |prefix| && RecordsArchive(g0.consents, prefix[i]) && Fold(prefix[i].agreement.consentHash) == key
    requires forall i :: 0 <= i < |prefix| ==> RecordsArchive(g.consents, prefix[i]) == RecordsArchive(g0.consents, prefix[i])
    ensures var rows := prefix + [last];
      key in g.archives <==>
        exists i :: 0 <= i < |rows| && RecordsArchive(g.consents, rows[i]) && Fold(rows[i].agreement.consentHash) == key
  {
    var rows := prefix + [last];
    if key in g0.archives {
      var i :| 0 <= i < |prefix| && RecordsArchive(g0.consents, prefix[i]) && Fold(prefix[i].agreement.consentHash) == key;
      assert rows[i] == prefix[i];
    }
    if RecordsArchive(g.consents, last) && Fold(last.agreement.consentHash) == key {
      assert rows[|prefix|] == last;
    }
    if exists i :: 0 <= i < |rows| && RecordsArchive(g.consents, rows[i]) && Fold(rows[i].agreement.consentHash) == key {
      var i :| 0 <= i < |rows| && RecordsArchive(g.consents, rows[i]) && Fold(rows[i].agreement.consentHash) == key;
      if i < |prefix| {
        assert rows[i] == prefix[i];
      }
    }
  }

  /** One more row keeps the archives recorded so far and adds one exactly when the row records one. */
  lemma GroupRowArchives(g: Grouping, row: ConsentRow, key: string)
    ensures var g' := GroupRow(g, row);
      key in g'.archives <==>
        key in g.archives || (RecordsArchive(g'.consents, row) && Fold(row.agreement.consentHash) == key)
  {
  }

  /** The archive recorded for a content comes from the first row that records one for it. */
  lemma {:induction false} ArchiveIsFirstRow(rows: seq<ConsentRow>, i: nat)
    requires i < |rows|
    requires RecordsArchive(Grouped(rows).consents, rows[i])
    requires forall k :: 0 <= k < i && Fold(rows[k].agreement.consentHash) == Fold(rows[i].agreement.consentHash)
               ==> !RecordsArchive(Grouped(rows).consents, rows[k])
    ensures Fold(rows[i].agreement.consentHash) in Grouped(rows).archives
    ensures Grouped(rows).archives[Fold(rows[i].agreement.consentHash)] == rows[i].archive
  {
    var key := Fold(rows[i].agreement.consentHash);
    var g := Grouped(rows);
    var prefix := rows[..i];
    var g0 := Grouped(prefix);
    var g1 := Grouped(rows[..i + 1]);
    assert key !in g0.archives by {
      ConsentsNeverOverwritten(rows, i);
      ArchiveKeys(prefix, key);
    }
    assert key in g1.archives && g1.archives[key] == rows[i].archive by {
      assert rows[..i + 1][..i] == prefix;
      assert rows[..i + 1][i] == rows[i];
      assert g1 == GroupRow(g0, rows[i]);
      ConsentsNeverOverwritten(rows, i + 1);
      var id := rows[i].agreement.consentId;
      assert id in g1.consents;
      assert g1.consents[id] == g.consents[id];
    }
    ArchivesNeverOverwritten(rows, i + 1);
  }

  /** An archive, once recorded, is never replaced. */
  lemma {:induction false} ArchivesNeverOverwritten(rows: seq<ConsentRow>, k: nat)
    requires k <= |rows|
    ensures forall key :: key in Grouped(rows[..k]).archives ==>
      key in Grouped(rows).archives && Grouped(rows).archives[key] == Grouped(rows[..k]).archives[key]
  {
    if k < |rows| {
      var prefix := rows[..|rows| - 1];
      assert prefix[..k] == rows[..k];
      ArchivesNeverOverwritten(prefix, k);
    } else {
      assert rows[..k] == rows;
    }
  }

  // ---------------------------------------------------------------------------------------
  // What is written for each consent content

  /** The arguments of one `WriteConsent` call. */
  datatype ConsentToWrite = ConsentToWrite(
    consent: Consent,
    archive: Option<Archive>,
    agreements: seq<Agreement>,
    revocations: Option<seq<Agreement>>)

  /** `TryGetValue`: the value under a key, or null. */
  function Lookup<K, V>(m: map<K, V>, key: K): (r: Option<V>)
    ensures r.Some? <==> key in m
    ensures r.Some? ==> r.value == m[key]
  {
    if key in m then Some(m[key]) else None
  }

  /**
   * One iteration of the second `WriteConsents`: the first agreement of a content names the
   * consent (the indexer throws for a missing ID), the archive of its content and the
   * revocations of its consent. `First` throws on an empty list.
   */
  function SelectConsent(g: Grouping, key: string): Result<ConsentToWrite, Exception>
    requires key in g.agreements.lists
  {
    var list := g.agreements.lists[key];
    if list == [] then Failure(InvalidOperation)
    else
      var consentAgreement := list[0];
      if consentAgreement.consentId !in g.consents then Failure(KeyNotFound)
      else Success(ConsentToWrite(
        g.consents[consentAgreement.consentId],
        Lookup(g.archives, Fold(consentAgreement.consentHash)),
        list,
        Lookup(g.revocations, consentAgreement.consentId)))
  }

  /**
   * For dictionaries filled by the grouping loop the selection never throws: each content's
   * list is its agreements, the consent is the first agreement's, the archive is the one of
   * that same content and the revocations are those of that consent.
   */
  lemma SelectionNeverFails(rows: seq<ConsentRow>, key: string)
    requires key in Grouped(rows).agreements.lists
    ensures var g := Grouped(rows); var agreements := Filter(IsAgreementOfContent(key), Agreements(rows));
      agreements != [] && agreements[0].consentId in g.consents &&
      SelectConsent(g, key) == Success(ConsentToWrite(
        g.consents[agreements[0].consentId],
        Lookup(g.archives, key),
        agreements,
        Lookup(g.revocations, agreements[0].consentId)))
  {
    var agreements := Filter(IsAgreementOfContent(key), Agreements(rows));
    AgreementsOfContent(rows, key);
    FilterMembership(IsAgreementOfContent(key), Agreements(rows), agreements[0]);
    ConsentsCoverAgreements(rows, agreements[0]);
  }

  /** `consentArchiveInfo?.ConsentArchiveLastModified ?? consentInfo.ConsentLastModified`. */
  function AgreedConsentLastModified(consent: Consent, archive: Option<Archive>): int
  {
    if archive.Some? then archive.value.lastModified else consent.lastModified
  }

  /** The revocations `WriteConsent` passes on: null stays null, otherwise those strictly later. */
  function RevocationsToWrite(consentRevocations: Option<seq<Agreement>>, agreedConsentLastModified: int): (r: Option<seq<Agreement>>)
    ensures r.Some? <==> consentRevocations.Some?
    ensures r.Some? ==> IsSubsequence(r.value, consentRevocations.value)
    ensures r.Some? ==> forall a :: a in r.value <==> a in consentRevocations.value && a.time > agreedConsentLastModified
  {
    match consentRevocations
    case None => None
    case Some(revocations) =>
      var later := Filter((a: Agreement) => a.time > agreedConsentLastModified, revocations);
      FilterIsSubsequence((a: Agreement) => a.time > agreedConsentLastModified, revocations);
      forall a ensures a in later <==> a in revocations && a.time > agreedConsentLastModified {
        FilterMembership((a: Agreement) => a.time > agreedConsentLastModified, revocations, a);
      }
      Some(later)
  }

  /** A revocation made at the very moment the agreed content was last modified is not written. */
  lemma SimultaneousRevocationIsDropped(a: Agreement, lastModified: int)
    requires a.time == lastModified
    ensures RevocationsToWrite(Some([a]), lastModified) == Some([])
  {
  }

  // ---------------------------------------------------------------------------------------
  // CollectData

  datatype ContactGroup = ContactGroup(contactGroupId: int, info: BaseInfo)

  datatype Contact = Contact(contactId: int, email: string, contactGroups: seq<ContactGroup>, info: BaseInfo)

  /** An identity handed to the collector: a contact or an info object of another type. */
  datatype Identity = ContactIdentity(contact: Contact) | OtherIdentity(info: BaseInfo)

  /** `identities.OfType<ContactInfo>()`. */
  function ContactsOf(identities: seq<Identity>): (contacts: seq<Contact>)
    ensures |contacts| <= |identities|
    ensures forall c :: c in contacts <==> ContactIdentity(c) in identities
  {
    if identities == [] then []
    else
      (if identities[0].ContactIdentity? then [identities[0].contact] else []) + ContactsOf(identities[1..])
  }

  /** `contacts.SelectMany(c => c.ContactGroups)`. */
  function AllContactGroups(contacts: seq<Contact>): (groups: seq<ContactGroup>)
    ensures forall g :: g in groups <==> exists c :: c in contacts && g in c.contactGroups
  {
    if contacts == [] then [] else contacts[0].contactGroups + AllContactGroups(contacts[1..])
  }

  /** The contact group IDs that occur in `groups`. */
  function GroupIds(groups: seq<ContactGroup>): set<int>
  {
    set g | g in groups :: g.contactGroupId
  }

  lemma GroupIdsSnoc(groups: seq<ContactGroup>, g: ContactGroup)
    ensures GroupIds(groups + [g]) == GroupIds(groups) + {g.contactGroupId}
  {
    assert forall x :: x in groups + [g] <==> x in groups || x == g;
  }

  /** `GroupBy(c => c.ContactGroupID).Select(group => group.First())`: one group per ID. */
  function DistinctContactGroups(groups: seq<ContactGroup>): (distinct: seq<ContactGroup>)
    ensures |distinct| <= |groups|
    ensures forall d :: d in distinct ==> d in groups
    ensures GroupIds(distinct) == GroupIds(groups)
    ensures forall p, q :: 0 <= p < q < |distinct| ==> distinct[p].contactGroupId != distinct[q].contactGroupId
  {
    if groups == [] then []
    else
      var before := DistinctContactGroups(groups[..|groups| - 1]);
      var g := groups[|groups| - 1];
      assert groups == groups[..|groups| - 1] + [g];
      GroupIdsSnoc(groups[..|groups| - 1], g);
      GroupIdsSnoc(before, g);
      if g.contactGroupId in GroupIds(before) then before else before + [g]
  }

  /** The group kept for an ID is its first occurrence. */
  lemma {:induction false} DistinctKeepsFirst(groups: seq<ContactGroup>, i: nat)
    requires i < |groups|
    requires forall k :: 0 <= k < i ==> groups[k].contactGroupId != groups[i].contactGroupId
    ensures groups[i] in DistinctContactGroups(groups)
  {
    var prefix := groups[..|groups| - 1];
    if i < |prefix| {
      assert prefix[i] == groups[i];
      DistinctKeepsFirst(prefix, i);
    }
  }

  // ---------------------------------------------------------------------------------------
  // Writing the consents

  /** The two columns that hold the XML content of a consent or of a consent archive. */
  predicate IsConsentContentColumn(columnName: string)
  {
    EqualsIgnoreCase(columnName, "ConsentContent") || EqualsIgnoreCase(columnName, "ConsentArchiveContent")
  }

  /**
   * `TransfromConsentText`: the full text of a consent content column, other columns unchanged.
   * Loading the XML, selecting the first `FullText` node and stripping its HTML tags is
   * `fullText`; a value that is not a string is read as the empty string.
   */
  function TransformConsentText(fullText: string -> Result<Value, Exception>, columnName: string, columnValue: Value)
    : (r: Result<Value, Exception>)
    ensures !IsConsentContentColumn(columnName) ==> r == Success(columnValue)
    ensures IsConsentContentColumn(columnName) && !columnValue.TextValue? ==> r == fullText("")
    ensures IsConsentContentColumn(columnName) && columnValue.TextValue? ==> r == fullText(columnValue.text)
  {
    if IsConsentContentColumn(columnName) then
      fullText(if columnValue.TextValue? then columnValue.text else "")
    else Success(columnValue)
  }

  /** The transformation handed to `WriteBaseInfo` for consent and archive content. */
  function ConsentTextTransformation(fullText: string -> Result<Value, Exception>): Transformation
  {
    (columnName: string, columnValue: Value) => TransformConsentText(fullText, columnName, columnValue)
  }

  /** Two successive writes: the second one happens only if the first ends normally. */
  function Then(first: Written, next: Written): (w: Written)
    ensures first.completion.Throw? ==> w == first
    ensures first.completion == Normal ==> w.text == first.text + next.text && w.completion == next.completion
  {
    if first.completion.Throw? then first else Written(first.text + next.text, next.completion)
  }

  /** The columns `WriteBaseInfo` writes for each agreement, in order. */
  function AgreementColumns(level: int, agreements: seq<Agreement>, format: Value -> string): (r: seq<Written>)
    ensures |r| == |agreements|
  {
    if agreements == [] then []
    else [WrittenColumns(level, agreements[0].info, ConsentAgreementInfoColumns, Some(TransformConsentAction), format)] +
         AgreementColumns(level, agreements[1..], format)
  }

  /** Entry `i` holds the columns of the `i`-th agreement. */
  lemma {:induction false} AgreementColumnsIndex(level: int, agreements: seq<Agreement>, i: nat, format: Value -> string)
    requires i < |agreements|
    ensures AgreementColumns(level, agreements, format)[i] ==
            WrittenColumns(level, agreements[i].info, ConsentAgreementInfoColumns, Some(TransformConsentAction), format)
  {
    if i > 0 {
      AgreementColumnsIndex(level, agreements[1..], i - 1, format);
    }
  }

  /** The first `n` of successive writes, each made only when the ones before it ended normally. */
  function Sequenced(sections: seq<Written>, n: nat): Written
    requires n <= |sections|
  {
    if n == 0 then Written([], Normal)
    else Then(Sequenced(sections, n - 1), sections[n - 1])
  }

  /** Once one of successive writes throws, the later ones change nothing. */
  lemma {:induction false} SequencedThrowIsFinal(sections: seq<Written>, n: nat, k: nat)
    requires k <= n <= |sections|
    requires Sequenced(sections, k).completion.Throw?
    ensures Sequenced(sections, n) == Sequenced(sections, k)
  {
    if k < n {
      SequencedThrowIsFinal(sections, n - 1, k);
    }
  }

  /** Successive writes that each end normally end normally together. */
  lemma {:induction false} SequencedNormal(sections: seq<Written>, n: nat)
    requires n <= |sections|
    requires forall i :: 0 <= i < n ==> sections[i].completion == Normal
    ensures Sequenced(sections, n).completion == Normal
  {
    if n > 0 {
      SequencedNormal(sections, n - 1);
    }
  }
  /** A sequence of writes that ends normally is one in which every write ended normally. */
  lemma {:induction false} SequencedNormalParts(sections: seq<Written>, n: nat)
    requires n <= |sections|
    requires Sequenced(sections, n).completion == Normal
    ensures forall i :: 0 <= i < n ==> sections[i].completion == Normal
  {
    if n > 0 {
      assert Sequenced(sections, n - 1).completion == Normal;
      SequencedNormalParts(sections, n - 1);
    }
  }


  /** Successive writes whose texts are each empty or end with a new line: so is their text. */
  lemma {:induction false} SequencedEndsWithNewLine(sections: seq<Written>, n: nat)
    requires n <= |sections|
    requires forall i :: 0 <= i < n ==> sections[i].text == [] || EndsWithNewLine(sections[i].text)
    ensures Sequenced(sections, n).text == [] || EndsWithNewLine(Sequenced(sections, n).text)
  {
    if n > 0 {
      SequencedEndsWithNewLine(sections, n - 1);
      EndsWithNewLineAppend(Sequenced(sections, n - 1).text, sections[n - 1].text);
    }
  }

  /** The loop of `WriteConsentAgreements`: `WriteBaseInfo` for each agreement in turn. */
  function WrittenAgreements(level: int, agreements: seq<Agreement>, format: Value -> string): Written
  {
    Sequenced(AgreementColumns(level, agreements, format), |agreements|)
  }

  /** One more agreement after the first `i` written normally: its columns are appended. */
  lemma AgreementsStep(level: int, agreements: seq<Agreement>, i: nat, format: Value -> string)
    requires i < |agreements| && Sequenced(AgreementColumns(level, agreements, format), i).completion == Normal
    ensures var columns := WrittenColumns(level, agreements[i].info, ConsentAgreementInfoColumns,
                                          Some(TransformConsentAction), format);
            var before := Sequenced(AgreementColumns(level, agreements, format), i);
            Sequenced(AgreementColumns(level, agreements, format), i + 1) ==
            Written(before.text + columns.text, columns.completion)
  {
    AgreementColumnsIndex(level, agreements, i, format);
  }

  /** `WriteConsentRevocations`: nothing for null, otherwise as for agreements. */
  function WrittenRevocations(level: int, revocations: Option<seq<Agreement>>, format: Value -> string): Written
  {
    match revocations
    case None => Written([], Normal)
    case Some(list) => WrittenAgreements(level, list, format)
  }

  /** The `WriteBaseInfo` call of `WriteConsentContent`: the consent itself, or its archive when there is one. */
  function ContentInfoWritten(level: int, c: ConsentToWrite, fullText: string -> Result<Value, Exception>,
                              format: Value -> string): Written
  {
    match c.archive
    case None => WrittenColumns(level, c.consent.info, ConsentInfoColumns, Some(ConsentTextTransformation(fullText)), format)
    case Some(archive) =>
      WrittenColumns(level, archive.info, ConsentArchiveInfoColumns, Some(ConsentTextTransformation(fullText)), format)
  }

  /**
   * `WriteStartSection`, then writes, then `WriteEndSection` at `level`: the header, then
   * `unflagged` (written by `WriteSectionValue`, which leaves the new-line flag as it is), then
   * `body` (written by calls that set the flag when they write a line); the end adds an
   * indented blank line only when `body` wrote nothing.
   */
  function Section(level: int, displayName: string, unflagged: string, body: Written): (w: Written)
    ensures level < 0 ==> w == Written([], Throw(ArgumentOutOfRange))
    ensures level >= 0 ==> SectionHeader(level, displayName) + unflagged + body.text <= w.text
    ensures w.completion == if level < 0 then Throw(ArgumentOutOfRange) else body.completion
  {
    if level < 0 then Written([], Throw(ArgumentOutOfRange))
    else
      var start := SectionHeader(level, displayName) + unflagged;
      if body.completion.Throw? then Written(start + body.text, body.completion)
      else Written(start + body.text + (if body.text == [] then Tabs(level) + NewLine else []), Normal)
  }

  /** The text of a section appended to a buffer, grouped the way successive writes append it. */
  lemma SectionAppended(buffer: string, level: int, displayName: string, unflagged: string, body: Written)
    requires level >= 0
    ensures body.completion.Throw? ==>
      buffer + Section(level, displayName, unflagged, body).text ==
      buffer + SectionHeader(level, displayName) + unflagged + body.text
    ensures body.completion == Normal ==>
      buffer + Section(level, displayName, unflagged, body).text ==
      buffer + SectionHeader(level, displayName) + unflagged + body.text + (if body.text == [] then Tabs(level) + NewLine else [])
  {
    var header := SectionHeader(level, displayName);
    AppendAssociative(buffer, header, unflagged);
    AppendAssociative(buffer, header + unflagged, body.text);
    AppendAssociative(buffer, header + unflagged + body.text, Tabs(level) + NewLine);
  }

  /** The text of a consent section appended to a buffer, grouped the way `WriteConsent` appends it. */
  lemma ConsentSectionWritten(buffer: string, level: int, c: ConsentToWrite, fullText: string -> Result<Value, Exception>,
                              format: Value -> string)
    requires level >= 0
    ensures var body := ConsentBody(level + 1, c, fullText, format);
      var w := ConsentSection(level, c, fullText, format);
      var written := buffer + SectionHeader(level, "Consent") + ConsentNameLine(level + 1, c) + body.text;
      && w.completion == body.completion
      && (body.completion.Throw? ==> buffer + w.text == written)
      && (body.completion == Normal && body.text == [] ==> buffer + w.text == written + Tabs(level) + NewLine)
      && (body.completion == Normal && body.text != [] ==> buffer + w.text == written)
  {
    var body := ConsentBody(level + 1, c, fullText, format);
    SectionAppended(buffer, level, "Consent", ConsentNameLine(level + 1, c), body);
    AppendAssociative(buffer + SectionHeader(level, "Consent") + ConsentNameLine(level + 1, c) + body.text, Tabs(level), NewLine);
  }

  /** The consent name line written before an archived content. */
  function ConsentNameLine(level: nat, c: ConsentToWrite): string
  {
    if c.archive.Some? then KeyValueLine(level, "Consent name", c.consent.displayName) else []
  }

  /** What `WriteConsent` writes between the section's start and its end, one level deeper. */
  function ConsentBody(inner: int, c: ConsentToWrite, fullText: string -> Result<Value, Exception>,
                       format: Value -> string): Written
  {
    var revocations := RevocationsToWrite(c.revocations, AgreedConsentLastModified(c.consent, c.archive));
    Then(Then(ContentInfoWritten(inner, c, fullText, format), WrittenAgreements(inner, c.agreements, format)),
         WrittenRevocations(inner, revocations, format))
  }

  /**
   * `WriteConsent` at `level`: a section "Consent" holding the content (with the consent name
   * when archived), the agreements and the revocations later than the agreed content.
   */
  function ConsentSection(level: int, c: ConsentToWrite, fullText: string -> Result<Value, Exception>,
                          format: Value -> string): Written
  {
    Section(level, "Consent", if level < 0 then [] else ConsentNameLine(level + 1, c), ConsentBody(level + 1, c, fullText, format))
  }

  /** One iteration of the second `WriteConsents`: select, then write the section. */
  function ContentSection(level: int, g: Grouping, key: string, fullText: string -> Result<Value, Exception>,
                          format: Value -> string): Written
    requires key in g.agreements.lists
  {
    match SelectConsent(g, key)
    case Failure(e) => Written([], Throw(e))
    case Success(c) => ConsentSection(level, c, fullText, format)
  }

  /** The sections of the contents `keys`, in that order. */
  function ContentSections(level: int, g: Grouping, keys: seq<string>, fullText: string -> Result<Value, Exception>,
                           format: Value -> string): (r: seq<Written>)
    requires forall key :: key in keys ==> key in g.agreements.lists
    ensures |r| == |keys|
  {
    if keys == [] then []
    else [ContentSection(level, g, keys[0], fullText, format)] + ContentSections(level, g, keys[1..], fullText, format)
  }

  /** Section `i` is the one of the `i`-th content. */
  lemma {:induction false} ContentSectionsIndex(level: int, g: Grouping, keys: seq<string>, i: nat,
                                                fullText: string -> Result<Value, Exception>, format: Value -> string)
    requires forall key :: key in keys ==> key in g.agreements.lists
    requires i < |keys|
    ensures ContentSections(level, g, keys, fullText, format)[i] == ContentSection(level, g, keys[i], fullText, format)
  {
    if i > 0 {
      ContentSectionsIndex(level, g, keys[1..], i - 1, fullText, format);
    }
  }

  /** The second `WriteConsents` over the first `n` contents, in the order they were first met. */
  function WrittenConsents(level: int, g: Grouping, n: nat, fullText: string -> Result<Value, Exception>,
                           format: Value -> string): Written
    requires g.agreements.Valid() && n <= |g.agreements.order|
  {
    Sequenced(ContentSections(level, g, g.agreements.order, fullText, format), n)
  }

  /** One more content after a prefix written normally: its section is appended. */
  lemma ConsentsStep(level: int, g: Grouping, i: nat, fullText: string -> Result<Value, Exception>,
                     format: Value -> string)
    requires g.agreements.Valid() && i < |g.agreements.order|
    requires WrittenConsents(level, g, i, fullText, format).completion == Normal
    ensures var section := ContentSection(level, g, g.agreements.order[i], fullText, format);
            WrittenConsents(level, g, i + 1, fullText, format) ==
            Written(WrittenConsents(level, g, i, fullText, format).text + section.text, section.completion)
  {
    ContentSectionsIndex(level, g, g.agreements.order, i, fullText, format);
  }

  /** A section that ends normally ends with a new line when its body's text does. */
  lemma SectionEndsWithNewLine(level: int, displayName: string, unflagged: string, body: Written)
    requires Section(level, displayName, unflagged, body).completion == Normal
    requires body.text == [] || EndsWithNewLine(body.text)
    ensures EndsWithNewLine(Section(level, displayName, unflagged, body).text)
  {
    if body.text != [] {
      var start := SectionHeader(level, displayName) + unflagged;
      assert (start + body.text)[|start + body.text| - 1] == body.text[|body.text| - 1];
    }
  }

  /** The text of a consent section is empty or ends with a new line, and so is each part of it. */
  lemma ConsentBodyEndsWithNewLine(inner: int, c: ConsentToWrite, fullText: string -> Result<Value, Exception>,
                                   format: Value -> string)
    ensures var text := ConsentBody(inner, c, fullText, format).text;
      text == [] || EndsWithNewLine(text)
  {
    var revocations := RevocationsToWrite(c.revocations, AgreedConsentLastModified(c.consent, c.archive));
    var content := ContentInfoWritten(inner, c, fullText, format);
    var agreements := WrittenAgreements(inner, c.agreements, format);
    var rest := WrittenRevocations(inner, revocations, format);
    match c.archive {
      case None =>
        WrittenTextEndsWithNewLine(inner, c.consent.info, ConsentInfoColumns, Some(ConsentTextTransformation(fullText)), format);
      case Some(archive) =>
        WrittenTextEndsWithNewLine(inner, archive.info, ConsentArchiveInfoColumns, Some(ConsentTextTransformation(fullText)), format);
    }
    AgreementsEndWithNewLine(inner, c.agreements, format);
    if revocations.Some? {
      AgreementsEndWithNewLine(inner, revocations.value, format);
    }
    EndsWithNewLineAppend(content.text, agreements.text);
    EndsWithNewLineAppend(content.text + agreements.text, rest.text);
  }

  /** A consent section that ends normally opens with its header and ends with a new line. */
  lemma ConsentSectionShape(level: int, c: ConsentToWrite, fullText: string -> Result<Value, Exception>,
                            format: Value -> string)
    requires ConsentSection(level, c, fullText, format).completion == Normal
    ensures level >= 0
    ensures var text := ConsentSection(level, c, fullText, format).text;
      SectionHeader(level, "Consent") <= text && EndsWithNewLine(text)
  {
    ConsentBodyEndsWithNewLine(level + 1, c, fullText, format);
    SectionEndsWithNewLine(level, "Consent", ConsentNameLine(level + 1, c), ConsentBody(level + 1, c, fullText, format));
    AppendAssociative(SectionHeader(level, "Consent"), ConsentNameLine(level + 1, c), ConsentBody(level + 1, c, fullText, format).text);
  }

  /** A text that ends with a new line still does after an append that is empty or ends with one. */
  lemma EndsWithNewLineAppend(a: string, b: string)
    requires a == [] || EndsWithNewLine(a)
    requires b == [] || EndsWithNewLine(b)
    ensures a + b == [] || EndsWithNewLine(a + b)
  {
    if b == [] {
      assert a + b == a;
    }
  }

  /** The agreements' text is empty or ends with a new line. */
  lemma AgreementsEndWithNewLine(level: int, agreements: seq<Agreement>, format: Value -> string)
    ensures var text := WrittenAgreements(level, agreements, format).text;
      text == [] || EndsWithNewLine(text)
  {
    var columns := AgreementColumns(level, agreements, format);
    forall i | 0 <= i < |agreements|
      ensures columns[i].text == [] || EndsWithNewLine(columns[i].text)
    {
      AgreementColumnsIndex(level, agreements, i, format);
      WrittenTextEndsWithNewLine(level, agreements[i].info, ConsentAgreementInfoColumns, Some(TransformConsentAction), format);
    }
    SequencedEndsWithNewLine(columns, |agreements|);
  }

  /** The section "Online marketing data" as far as it is modelled: the consents of the contacts' rows. */
  function OnlineMarketingSection(level: int, consentsData: seq<ConsentRow>,
                                  fullText: string -> Result<Value, Exception>, format: Value -> string): Written
  {
    Section(level, "Online marketing data", [], ConsentsOfRows(level + 1, consentsData, fullText, format))
  }

  /** The first `WriteConsents`: nothing for an empty query result, otherwise the grouped contents. */
  function ConsentsOfRows(level: int, consentsData: seq<ConsentRow>,
                          fullText: string -> Result<Value, Exception>, format: Value -> string): Written
  {
    if consentsData == [] then Written([], Normal)
    else
      GroupedAgreementsValid(consentsData);
      var g := Grouped(consentsData);
      WrittenConsents(level, g, |g.agreements.order|, fullText, format)
  }

  // ---------------------------------------------------------------------------------------
  // When writing the consents throws

  /** The revoked column of an agreement holds a boolean, as the database column type ensures, or is null. */
  predicate RevokedIsBoolean(a: Agreement)
  {
    GetValue(a.info, "ConsentAgreementRevoked").None? || GetValue(a.info, "ConsentAgreementRevoked").value.BoolValue?
  }

  /** `TransformConsentAction` fails on an agreement's columns exactly when its revoked column holds a non-boolean. */
  lemma AgreementsWriteNormally(level: int, agreements: seq<Agreement>, format: Value -> string)
    requires level >= 0
    requires forall i :: 0 <= i < |agreements| ==> RevokedIsBoolean(agreements[i])
    ensures WrittenAgreements(level, agreements, format).completion == Normal
  {
    var columns := AgreementColumns(level, agreements, format);
    forall i | 0 <= i < |agreements|
      ensures columns[i].completion == Normal
    {
      AgreementColumnsIndex(level, agreements, i, format);
      WrittenColumnsNormalIff(level, agreements[i].info, ConsentAgreementInfoColumns, Some(TransformConsentAction), format);
      assert !EqualsIgnoreCase("ConsentAgreementGuid", "ConsentAgreementRevoked");
      assert !EqualsIgnoreCase("ConsentAgreementTime", "ConsentAgreementRevoked");
      assert EqualsIgnoreCase("ConsentAgreementRevoked", "ConsentAgreementRevoked");
    }
    SequencedNormal(columns, |agreements|);
  }

  /**
   * The content column `WriteConsent` writes for `c` (the archive's when there is one) is
   * omitted, null, or holds a text from which `fullText` extracts the full text without throwing.
   */
  predicate ContentLoads(fullText: string -> Result<Value, Exception>, c: ConsentToWrite)
  {
    var info := if c.archive.Some? then c.archive.value.info else c.consent.info;
    var column := if c.archive.Some? then ConsentArchiveInfoColumns[1] else ConsentInfoColumns[2];
    var value := GetValue(info, column.name);
    OmittedColumn(info, column) || value.None? ||
    fullText(if value.value.TextValue? then value.value.text else "").Success?
  }

  /** The content of a consent is written without an exception exactly when its content text loads. */
  lemma ContentWritesNormally(level: int, c: ConsentToWrite, fullText: string -> Result<Value, Exception>, format: Value -> string)
    requires level >= 0
    ensures ContentInfoWritten(level, c, fullText, format).completion == Normal <==> ContentLoads(fullText, c)
  {
    var info := if c.archive.Some? then c.archive.value.info else c.consent.info;
    var columns := if c.archive.Some? then ConsentArchiveInfoColumns else ConsentInfoColumns;
    WrittenColumnsNormalIff(level, info, columns, Some(ConsentTextTransformation(fullText)), format);
    assert !IsConsentContentColumn("ConsentGUID") && !IsConsentContentColumn("ConsentDisplayName");
    assert !IsConsentContentColumn("ConsentArchiveGUID");
    assert IsConsentContentColumn("ConsentContent") && IsConsentContentColumn("ConsentArchiveContent");
  }

  /** An agreement filed by the grouping loop is one of the rows' agreements. */
  lemma FiledAgreementIsRow(rows: seq<ConsentRow>, a: Agreement)
    requires a in Agreements(rows)
    ensures exists i :: 0 <= i < |rows| && rows[i].agreement == a
  {
    var i :| 0 <= i < |Agreements(rows)| && Agreements(rows)[i] == a;
    assert rows[i].agreement == a;
  }

  /**
   * Writing the consents of a query result whose revoked columns hold booleans throws exactly
   * when the content text of one of the selected consents does not load: the dictionary
   * lookups of the second `WriteConsents` always succeed.
   */
  lemma ConsentsWriteNormally(level: int, rows: seq<ConsentRow>, fullText: string -> Result<Value, Exception>,
                              format: Value -> string)
    requires level >= 0
    requires forall i :: 0 <= i < |rows| ==> RevokedIsBoolean(rows[i].agreement)
    ensures ConsentsOfRows(level, rows, fullText, format).completion == Normal <==> AllContentsLoad(fullText, Grouped(rows))
  {
    AgreementsRevokedIsBoolean(rows);
    if rows == [] {
      assert Grouped(rows) == NoGrouping;
    } else {
      GroupedAgreementsValid(rows);
      WrittenConsentsNormalIff(level, Grouped(rows), fullText, format);
      SectionsNormalIff(level, rows, fullText, format);
    }
  }

  /** Every agreement filed by the grouping loop has a boolean revoked column when every row's has. */
  lemma AgreementsRevokedIsBoolean(rows: seq<ConsentRow>)
    requires forall i :: 0 <= i < |rows| ==> RevokedIsBoolean(rows[i].agreement)
    ensures forall a :: a in Agreements(rows) ==> RevokedIsBoolean(a)
  {
    forall a | a in Agreements(rows)
      ensures RevokedIsBoolean(a)
    {
      FiledAgreementIsRow(rows, a);
    }
  }

  /** Every content of the grouping has a selected consent whose content text loads. */
  predicate AllContentsLoad(fullText: string -> Result<Value, Exception>, g: Grouping)
  {
    forall key :: key in g.agreements.lists ==> SelectConsent(g, key).Success? && ContentLoads(fullText, SelectConsent(g, key).value)
  }

  /** Every content's section is written without an exception. */
  predicate AllSectionsNormal(level: int, g: Grouping, fullText: string -> Result<Value, Exception>, format: Value -> string)
  {
    forall key :: key in g.agreements.lists ==> ContentSection(level, g, key, fullText, format).completion == Normal
  }

  /** `SectionWritesNormally` for every content at once. */
  lemma SectionsNormalIff(level: int, rows: seq<ConsentRow>, fullText: string -> Result<Value, Exception>,
                          format: Value -> string)
    requires level >= 0
    requires forall a :: a in Agreements(rows) ==> RevokedIsBoolean(a)
    ensures AllSectionsNormal(level, Grouped(rows), fullText, format) <==> AllContentsLoad(fullText, Grouped(rows))
  {
    forall key | key in Grouped(rows).agreements.lists
      ensures ContentSection(level, Grouped(rows), key, fullText, format).completion == Normal <==>
        SelectConsent(Grouped(rows), key).Success? && ContentLoads(fullText, SelectConsent(Grouped(rows), key).value)
    {
      SectionWritesNormally(level, rows, key, fullText, format);
    }
  }

  /** The loop over the contents ends normally exactly when every content's section does. */
  lemma WrittenConsentsNormalIff(level: int, g: Grouping, fullText: string -> Result<Value, Exception>,
                                 format: Value -> string)
    requires g.agreements.Valid()
    ensures WrittenConsents(level, g, |g.agreements.order|, fullText, format).completion == Normal <==>
      AllSectionsNormal(level, g, fullText, format)
  {
    var order := g.agreements.order;
    var sections := ContentSections(level, g, order, fullText, format);
    forall i | 0 <= i < |order|
      ensures sections[i] == ContentSection(level, g, order[i], fullText, format)
    {
      ContentSectionsIndex(level, g, order, i, fullText, format);
    }
    if Sequenced(sections, |order|).completion == Normal {
      SequencedNormalParts(sections, |order|);
      SectionOfEveryKey(level, g, sections, fullText, format);
    }
    if AllSectionsNormal(level, g, fullText, format) {
      SectionsWriteNormally(level, g, |order|, fullText, format);
    }
  }

  /** Every content's section is one of the sections of the loop, at its position in the order. */
  lemma SectionOfEveryKey(level: int, g: Grouping, sections: seq<Written>,
                          fullText: string -> Result<Value, Exception>, format: Value -> string)
    requires g.agreements.Valid() && |sections| == |g.agreements.order|
    requires forall i :: 0 <= i < |sections| ==>
      sections[i] == ContentSection(level, g, g.agreements.order[i], fullText, format)
    requires forall i :: 0 <= i < |sections| ==> sections[i].completion == Normal
    ensures forall key :: key in g.agreements.lists ==> ContentSection(level, g, key, fullText, format).completion == Normal
  {
    forall key | key in g.agreements.lists
      ensures ContentSection(level, g, key, fullText, format).completion == Normal
    {
      var i :| 0 <= i < |g.agreements.order| && g.agreements.order[i] == key;
      assert sections[i].completion == Normal;
    }
  }

  /** The loop over the contents ends normally when every content's section does. */
  lemma SectionsWriteNormally(level: int, g: Grouping, n: nat,
                              fullText: string -> Result<Value, Exception>, format: Value -> string)
    requires g.agreements.Valid() && n <= |g.agreements.order|
    requires forall key :: key in g.agreements.lists ==> ContentSection(level, g, key, fullText, format).completion == Normal
    ensures WrittenConsents(level, g, n, fullText, format).completion == Normal
  {
    var sections := ContentSections(level, g, g.agreements.order, fullText, format);
    forall i | 0 <= i < n
      ensures sections[i].completion == Normal
    {
      ContentSectionsIndex(level, g, g.agreements.order, i, fullText, format);
    }
    SequencedNormal(sections, n);
  }

  /**
   * The section of one content, when the revoked columns hold booleans, is written without an
   * exception exactly when the content text of the consent selected for it loads.
   */
  lemma SectionWritesNormally(level: int, rows: seq<ConsentRow>, key: string,
                              fullText: string -> Result<Value, Exception>, format: Value -> string)
    requires level >= 0
    requires forall a :: a in Agreements(rows) ==> RevokedIsBoolean(a)
    requires key in Grouped(rows).agreements.lists
    ensures ContentSection(level, Grouped(rows), key, fullText, format).completion == Normal <==>
      SelectConsent(Grouped(rows), key).Success? && ContentLoads(fullText, SelectConsent(Grouped(rows), key).value)
  {
    var g := Grouped(rows);
    SelectionNeverFails(rows, key);
    var c := SelectConsent(g, key).value;
    var agreements := Filter(IsAgreementOfContent(key), Agreements(rows));
    forall i | 0 <= i < |agreements|
      ensures RevokedIsBoolean(agreements[i])
    {
      FilterMembership(IsAgreementOfContent(key), Agreements(rows), agreements[i]);
    }
    ContentWritesNormally(level + 1, c, fullText, format);
    AgreementsWriteNormally(level + 1, c.agreements, format);
    var revocations := RevocationsToWrite(c.revocations, AgreedConsentLastModified(c.consent, c.archive));
    if revocations.Some? {
      var id := agreements[0].consentId;
      RevocationsOfConsent(rows, id);
      forall i | 0 <= i < |revocations.value|
        ensures RevokedIsBoolean(revocations.value[i])
      {
        var a := revocations.value[i];
        assert a in c.revocations.value;
        FilterMembership(IsRevocationOf(id), Agreements(rows), a);
      }
      AgreementsWriteNormally(level + 1, revocations.value, format);
    }
  }

  // ---------------------------------------------------------------------------------------
  // The collector

  /**
   * `SampleContactDataCollectorCore` with its writer. The database queries are not modelled:
   * `CollectData` receives the rows of the consent query for the contacts as a parameter.
   */
  class Collector {
    const writer: Writer
    /** Loading a consent's XML content, selecting its first full text and stripping HTML tags. */
    const fullText: string -> Result<Value, Exception>

    constructor (writer: Writer, fullText: string -> Result<Value, Exception>)
      ensures this.writer == writer && this.fullText == fullText
    {
      this.writer := writer;
      this.fullText := fullText;
    }

    /** `CollectData`: null when no identity is a contact, otherwise the whole text written. */
    method CollectData(identities: seq<Identity>, consentsData: seq<ConsentRow>)
      returns (result: Result<Option<string>, Exception>)
      requires writer.Valid()
      modifies writer
      ensures writer.Valid()
      ensures ContactsOf(identities) == [] ==> result == Success(None) && unchanged(writer)
      ensures ContactsOf(identities) != [] ==>
        var w := OnlineMarketingSection(old(writer.indentationLevel), consentsData, fullText, writer.format);
        && writer.buffer == old(writer.buffer) + w.text
        && result == (if w.completion.Throw? then Failure(w.completion.exception) else Success(Some(writer.buffer)))
    {
      var contacts := ContactsOf(identities);
      if contacts == [] {
        return Success(None);
      }
      ghost var level := writer.indentationLevel;
      ghost var start := writer.buffer;
      ghost var w := OnlineMarketingSection(level, consentsData, fullText, writer.format);
      var completion := writer.WriteStartSection("OnlineMarketingData", "Online marketing data");
      if completion.Throw? {
        return Failure(completion.exception);
      }
      ghost var body := ConsentsOfRows(level + 1, consentsData, fullText, writer.format);
      assert w == Section(level, "Online marketing data", [], body);
      SectionAppended(start, level, "Online marketing data", [], body);
      assert start + SectionHeader(level, "Online marketing data") + [] == start + SectionHeader(level, "Online marketing data");
      completion := WriteConsentsOfRows(consentsData);
      if completion.Throw? {
        return Failure(completion.exception);
      }
      completion := writer.WriteEndSection();
      var text := writer.GetResult();
      result := Success(Some(text));
    }

    /** The first `WriteConsents`: nothing for an empty query result, otherwise group and write. */
    method WriteConsentsOfRows(consentsData: seq<ConsentRow>) returns (completion: Completion)
      requires writer.Valid()
      modifies writer
      ensures writer.Valid()
      ensures var w := ConsentsOfRows(old(writer.indentationLevel), consentsData, fullText, writer.format);
        && completion == w.completion
        && writer.buffer == old(writer.buffer) + w.text
        && (completion == Normal ==>
              writer.indentationLevel == old(writer.indentationLevel) &&
              writer.ignoreNewLine == (old(writer.ignoreNewLine) || |w.text| > 0))
    {
      if consentsData == [] {
        return Normal;
      }
      var g := GroupConsentRows(consentsData);
      completion := WriteConsents(g);
    }

    /** The second `WriteConsents`: one consent section per content, in the order contents were first met. */
    method WriteConsents(g: Grouping) returns (completion: Completion)
      requires writer.Valid() && g.agreements.Valid()
      modifies writer
      ensures writer.Valid()
      ensures var w := WrittenConsents(old(writer.indentationLevel), g, |g.agreements.order|, fullText, writer.format);
        && completion == w.completion
        && writer.buffer == old(writer.buffer) + w.text
        && (completion == Normal ==>
              writer.indentationLevel == old(writer.indentationLevel) &&
              writer.ignoreNewLine == (old(writer.ignoreNewLine) || |w.text| > 0))
    {
      ghost var level := writer.indentationLevel;
      ghost var start := writer.buffer;
      ghost var startFlag := writer.ignoreNewLine;
      completion := Normal;
      var i := 0;
      ghost var w := WrittenConsents(level, g, 0, fullText, writer.format);
      while i < |g.agreements.order| && completion == Normal
        invariant 0 <= i <= |g.agreements.order|
        invariant writer.Valid()
        invariant w == WrittenConsents(level, g, i, fullText, writer.format)
        invariant completion == w.completion && writer.buffer == start + w.text
        invariant completion == Normal ==> writer.indentationLevel == level
        invariant completion == Normal ==> writer.ignoreNewLine == (startFlag || |w.text| > 0)
      {
        completion := WriteContentAt(g, i, level, start, startFlag);
        i := i + 1;
        w := WrittenConsents(level, g, i, fullText, writer.format);
      }
      if completion.Throw? {
        SequencedThrowIsFinal(ContentSections(level, g, g.agreements.order, fullText, writer.format), |g.agreements.order|, i);
      }
    }

    /** The `i`-th iteration of the second `WriteConsents`, after the earlier ones ended normally. */
    method WriteContentAt(g: Grouping, i: nat, ghost level: int, ghost start: string, ghost startFlag: bool)
      returns (completion: Completion)
      requires writer.Valid() && g.agreements.Valid() && i < |g.agreements.order| && writer.indentationLevel == level
      requires var w := WrittenConsents(level, g, i, fullText, writer.format);
        && w.completion == Normal
        && writer.buffer == start + w.text
        && writer.ignoreNewLine == (startFlag || |w.text| > 0)
      modifies writer
      ensures writer.Valid()
      ensures var w := WrittenConsents(level, g, i + 1, fullText, writer.format);
        && completion == w.completion
        && writer.buffer == start + w.text
        && (completion == Normal ==> writer.indentationLevel == level && writer.ignoreNewLine == (startFlag || |w.text| > 0))
    {
      ghost var before := WrittenConsents(level, g, i, fullText, writer.format);
      var key := g.agreements.order[i];
      ConsentsStep(level, g, i, fullText, writer.format);
      completion := WriteContent(g, key);
      AppendAssociative(start, before.text, ContentSection(level, g, key, fullText, writer.format).text);
    }

    /** One iteration of the second `WriteConsents`. */
    method WriteContent(g: Grouping, key: string) returns (completion: Completion)
      requires writer.Valid() && key in g.agreements.lists
      modifies writer
      ensures writer.Valid()
      ensures var w := ContentSection(old(writer.indentationLevel), g, key, fullText, writer.format);
        && completion == w.completion
        && writer.buffer == old(writer.buffer) + w.text
      ensures completion == Normal ==> writer.indentationLevel == old(writer.indentationLevel) && writer.ignoreNewLine
    {
      var list := g.agreements.lists[key];
      if list == [] {
        return Throw(InvalidOperation);
      }
      var consentAgreement := list[0];
      if consentAgreement.consentId !in g.consents {
        return Throw(KeyNotFound);
      }
      var consentInfo := g.consents[consentAgreement.consentId];
      var consentArchiveInfo := Lookup(g.archives, Fold(consentAgreement.consentHash));
      var revocationsOfSameConsent := Lookup(g.revocations, consentAgreement.consentId);
      completion := WriteConsent(ConsentToWrite(consentInfo, consentArchiveInfo, list, revocationsOfSameConsent));
    }

    /** `WriteConsent`: the consent section, which leaves the level as it found it when it ends normally. */
    method WriteConsent(c: ConsentToWrite) returns (completion: Completion)
      requires writer.Valid()
      modifies writer
      ensures writer.Valid()
      ensures var w := ConsentSection(old(writer.indentationLevel), c, fullText, writer.format);
        && completion == w.completion
        && writer.buffer == old(writer.buffer) + w.text
      ensures completion == Normal ==> writer.indentationLevel == old(writer.indentationLevel) && writer.ignoreNewLine
    {
      ghost var level := writer.indentationLevel;
      ghost var start := writer.buffer;
      completion := writer.WriteStartSection("cms.consent", "Consent");
      if completion.Throw? {
        return;
      }
      ConsentSectionWritten(start, level, c, fullText, writer.format);
      var agreedConsentLastModified := AgreedConsentLastModified(c.consent, c.archive);
      completion := WriteConsentBody(c, agreedConsentLastModified);
      if completion.Throw? {
        return;
      }
      completion := writer.WriteEndSection();
    }

    /** The part of `WriteConsent` between the start and the end of the section. */
    method WriteConsentBody(c: ConsentToWrite, agreedConsentLastModified: int) returns (completion: Completion)
      requires writer.Valid() && !writer.ignoreNewLine && writer.indentationLevel >= 1
      requires agreedConsentLastModified == AgreedConsentLastModified(c.consent, c.archive)
      modifies writer`buffer, writer`ignoreNewLine
      ensures writer.Valid()
      ensures var w := ConsentBody(writer.indentationLevel, c, fullText, writer.format);
        && completion == w.completion
        && writer.buffer == old(writer.buffer) + ConsentNameLine(writer.indentationLevel, c) + w.text
        && writer.ignoreNewLine == (|w.text| > 0)
    {
      ghost var level := writer.indentationLevel;
      ghost var start := writer.buffer;
      ghost var content := ContentInfoWritten(level, c, fullText, writer.format);
      ghost var agreements := WrittenAgreements(level, c.agreements, writer.format);
      ghost var revocations := RevocationsToWrite(c.revocations, agreedConsentLastModified);
      completion := WriteConsentContent(c);
      if completion.Throw? {
        return;
      }
      completion := WriteConsentAgreements(c.agreements);
      AppendAssociative(start + ConsentNameLine(level, c), content.text, agreements.text);
      if completion.Throw? {
        return;
      }
      var consentRevocations := if c.revocations.Some? then
        Some(Filter((a: Agreement) => a.time > agreedConsentLastModified, c.revocations.value)) else None;
      completion := WriteConsentRevocations(consentRevocations);
      AppendAssociative(start + ConsentNameLine(level, c), content.text + agreements.text,
                        WrittenRevocations(level, revocations, writer.format).text);
    }

    /** `WriteConsentContent`: the consent's columns, or the consent name and the archive's columns. */
    method WriteConsentContent(c: ConsentToWrite) returns (completion: Completion)
      requires writer.Valid() && writer.indentationLevel >= 0
      modifies writer`buffer, writer`ignoreNewLine
      ensures writer.Valid()
      ensures var w := ContentInfoWritten(writer.indentationLevel, c, fullText, writer.format);
        && completion == w.completion
        && writer.buffer == old(writer.buffer) + ConsentNameLine(writer.indentationLevel, c) + w.text
        && writer.ignoreNewLine == (old(writer.ignoreNewLine) || |w.text| > 0)
    {
      var transformation := Some(ConsentTextTransformation(fullText));
      if c.archive.None? {
        completion := writer.WriteBaseInfo(Some(c.consent.info), ConsentInfoColumns, transformation);
      } else {
        completion := writer.WriteSectionValue("ConsentDisplayName", "Consent name", c.consent.displayName);
        completion := writer.WriteBaseInfo(Some(c.archive.value.info), ConsentArchiveInfoColumns, transformation);
      }
    }

    /** `WriteConsentAgreements`: `WriteBaseInfo` for each agreement, stopping at the first exception. */
    method WriteConsentAgreements(consentAgreements: seq<Agreement>) returns (completion: Completion)
      requires writer.Valid()
      modifies writer`buffer, writer`ignoreNewLine
      ensures writer.Valid()
      ensures var w := WrittenAgreements(writer.indentationLevel, consentAgreements, writer.format);
        && completion == w.completion
        && writer.buffer == old(writer.buffer) + w.text
        && writer.ignoreNewLine == (old(writer.ignoreNewLine) || |w.text| > 0)
    {
      ghost var level := writer.indentationLevel;
      ghost var start := writer.buffer;
      ghost var startFlag := writer.ignoreNewLine;
      completion := Normal;
      var i := 0;
      ghost var columns := AgreementColumns(level, consentAgreements, writer.format);
      while i < |consentAgreements| && completion == Normal
        invariant 0 <= i <= |consentAgreements|
        invariant writer.Valid() && writer.indentationLevel == level
        invariant completion == Sequenced(columns, i).completion
        invariant writer.buffer == start + Sequenced(columns, i).text
        invariant writer.ignoreNewLine == (startFlag || |Sequenced(columns, i).text| > 0)
      {
        completion := WriteAgreement(consentAgreements, i, start, startFlag);
        i := i + 1;
      }
      if completion.Throw? {
        SequencedThrowIsFinal(columns, |consentAgreements|, i);
      }
    }

    /** One iteration of `WriteConsentAgreements`: the `i`-th agreement's columns. */
    method WriteAgreement(consentAgreements: seq<Agreement>, i: nat, ghost start: string, ghost startFlag: bool)
      returns (completion: Completion)
      requires writer.Valid() && i < |consentAgreements|
      requires var before := Sequenced(AgreementColumns(writer.indentationLevel, consentAgreements, writer.format), i);
        && before.completion == Normal
        && writer.buffer == start + before.text
        && writer.ignoreNewLine == (startFlag || |before.text| > 0)
      modifies writer`buffer, writer`ignoreNewLine
      ensures writer.Valid()
      ensures var w := Sequenced(AgreementColumns(writer.indentationLevel, consentAgreements, writer.format), i + 1);
        && completion == w.completion
        && writer.buffer == start + w.text
        && writer.ignoreNewLine == (startFlag || |w.text| > 0)
    {
      ghost var before := Sequenced(AgreementColumns(writer.indentationLevel, consentAgreements, writer.format), i);
      ghost var columns := WrittenColumns(writer.indentationLevel, consentAgreements[i].info, ConsentAgreementInfoColumns,
                                          Some(TransformConsentAction), writer.format);
      AgreementsStep(writer.indentationLevel, consentAgreements, i, writer.format);
      completion := writer.WriteBaseInfo(Some(consentAgreements[i].info), ConsentAgreementInfoColumns, Some(TransformConsentAction));
      AppendAssociative(start, before.text, columns.text);
    }

    /** `WriteConsentRevocations`: nothing for null, otherwise as `WriteConsentAgreements`. */
    method WriteConsentRevocations(consentRevocations: Option<seq<Agreement>>) returns (completion: Completion)
      requires writer.Valid()
      modifies writer`buffer, writer`ignoreNewLine
      ensures writer.Valid()
      ensures var w := WrittenRevocations(writer.indentationLevel, consentRevocations, writer.format);
        && completion == w.completion
        && writer.buffer == old(writer.buffer) + w.text
        && writer.ignoreNewLine == (old(writer.ignoreNewLine) || |w.text| > 0)
    {
      if consentRevocations.None? {
        return Normal;
      }
      completion := WriteConsentAgreements(consentRevocations.value);
    }
  }
}
