/** What the startup migration does to the application's own tables, column by column. */
module AppSchema {
  import opened Schema

  lemma AppDefaults(table: string)
    ensures Defaults(APP_CONFIG, table) ==
      if table == "group" then map["role" := Str("guest")]
      else if table == "oidcsettings" then map["manager_group_claim" := Str(""), "manager_group" := Str("")]
      else if table == "user" then map["is_active" := Num(1)]
      else map[]
  {}

  lemma AppRenames()
    ensures |APP_CONFIG.renamed| == 2
    ensures APP_CONFIG.renamed[0] == Rename("oidcsettings", "user_group_claim", "manager_group_claim")
    ensures APP_CONFIG.renamed[1] == Rename("oidcsettings", "user_group", "manager_group")
    ensures forall r | r in APP_CONFIG.renamed :: r == APP_CONFIG.renamed[0] || r == APP_CONFIG.renamed[1]
    ensures forall t :: t in APP_CONFIG.dropped <==> t == "api_key"
  {}

  /** The columns of the claims model, and the ones that carry their values. */
  predicate OldClaim(x: string) { x == "user_group_claim" || x == "user_group" }

  predicate NewClaim(x: string) { x == "manager_group_claim" || x == "manager_group" }

  function Renamed(x: string): string { if x == "manager_group" then "user_group" else "user_group_claim" }

  lemma ClaimNames()
    ensures forall x :: !(OldClaim(x) && NewClaim(x))
  {
    assert "manager_group_claim"[0] == 'm' && "manager_group"[0] == 'm' && "user_group_claim"[0] == 'u' && "user_group"[0] == 'u';
  }

  /** MAIN: only the table of superseded keys goes. In every row of the others, the two claim columns of the identity
      provider settings carry their values over to the new names; an account without a status is active, a group
      without a role grants guest, settings without a claim have none; everything else is as it was. */
  lemma AppMigration(db: Db, table: string, k: nat, x: string)
    requires FitDb(db) && table in db && k < |db[table].rows|
    ensures table in Migrated(APP_CONFIG, db) <==> table != "api_key"
    ensures table != "api_key" ==> |Migrated(APP_CONFIG, db)[table].rows| == |db[table].rows|
    ensures table != "api_key" ==>
      var before, after := db[table].rows[k], Migrated(APP_CONFIG, db)[table].rows[k];
      var value :=
        if table == "oidcsettings" && NewClaim(x) && Renamed(x) in before then before[Renamed(x)]
        else if x in before then before[x]
        else if table == "user" then Num(1) else if table == "group" then Str("guest") else Str("");
      (x in after <==>
        (x in before && !(table == "oidcsettings" && OldClaim(x))) || (table == "user" && x == "is_active") ||
        (table == "group" && x == "role") || (table == "oidcsettings" && NewClaim(x))) &&
      (x in after ==> after[x] == value)
  {
    hide Migrated, FitDb, Defaults, Coherent, APP_CONFIG;
    var c := APP_CONFIG;
    AppConfigIsCoherent();
    AppRenames();
    AppDefaults(table);
    TablesAndRowsKept(c, db);
    if table != "api_key" {
      ClaimNames();
      RowsOf(db, table, k);
      var claims := db[table].columns;
      if table == "oidcsettings" && "user_group_claim" in claims && (x == "user_group_claim" || x == "manager_group_claim") {
        ValuesMove(c, db, 0, k);
      } else if table == "oidcsettings" && "user_group" in claims && (x == "user_group" || x == "manager_group") {
        ValuesMove(c, db, 1, k);
      } else {
        OthersKept(c, db, table, k, x);
      }
    }
  }

  lemma RowsOf(db: Db, table: string, k: nat)
    requires FitDb(db) && table in db && k < |db[table].rows|
    ensures db[table].rows[k].Keys == db[table].columns
  {
    assert db[table].rows[k] in db[table].rows;
  }
}
