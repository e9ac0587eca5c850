/**
 * The shell's list of open ODBC connections: the dense array `conns` of
 * `conns_count` entries, kept in the order they were opened, and the
 * non-owning `current` pointer that statements run against.
 *
 * The driver calls (allocating handles, `SQLDriverConnect`, allocating the
 * statement handle) are foreign: each method that makes them takes their
 * outcomes as boolean parameters.
 */
module Registry {
  import opened Text

  /** The name `connect` uses when it is given none, or an empty one. */
  const DefaultName: string := "default"

  /** One `ODBCShellConn`: its name and DSN never change after `connect`; its driver handles do. */
  class Conn {
    const name: string
    const dsn: string
    /** `hdbc` is connected to the data source. */
    var connected: bool
    /** `hstmt` is allocated. */
    var hasStmt: bool

    constructor (name: string, dsn: string)
      ensures this.name == name && this.dsn == dsn && connected && hasStmt
    {
      this.name := name;
      this.dsn := dsn;
      connected := true;
      hasStmt := true;
    }
  }

  /** No two connections have names that are equal ignoring case. */
  predicate DistinctNames(cs: seq<Conn>)
  {
    forall i, j :: 0 <= i < j < |cs| ==> !EqualsIgnoreCase(cs[i].name, cs[j].name)
  }

  /**
   * `odbcshell_odbc_array_findindex` as a value: the lowest index whose name
   * equals `key` ignoring case, or -1.
   */
  function IndexOf(cs: seq<Conn>, key: string): (i: int)
    ensures -1 <= i < |cs|
    ensures i >= 0 ==> EqualsIgnoreCase(cs[i].name, key)
    ensures i >= 0 ==> forall k :: 0 <= k < i ==> !EqualsIgnoreCase(cs[k].name, key)
    ensures i == -1 <==> forall k :: 0 <= k < |cs| ==> !EqualsIgnoreCase(cs[k].name, key)
  {
    if |cs| == 0 then -1
    else if EqualsIgnoreCase(cs[0].name, key) then 0
    else
      var j := IndexOf(cs[1..], key);
      if j == -1 then -1 else j + 1
  }

  /** The list after `array_rm` took out entry `k` by moving the later ones one place down. */
  function Without(cs: seq<Conn>, k: nat): seq<Conn>
    requires k < |cs|
  {
    cs[..k] + cs[k + 1..]
  }

  /** Removal is a stable left shift: entries before `k` stay put, later ones move down by one. */
  lemma WithoutShifts(cs: seq<Conn>, k: nat)
    requires k < |cs|
    ensures |Without(cs, k)| == |cs| - 1
    ensures forall i :: 0 <= i < k ==> Without(cs, k)[i] == cs[i]
    ensures forall i :: k <= i < |cs| - 1 ==> Without(cs, k)[i] == cs[i + 1]
    ensures multiset(Without(cs, k)) + multiset{cs[k]} == multiset(cs)
  {
    assert cs == cs[..k] + [cs[k]] + cs[k + 1..];
  }

  /** Taking an entry out keeps the names distinct. */
  lemma WithoutKeepsDistinct(cs: seq<Conn>, k: nat)
    requires k < |cs| && DistinctNames(cs)
    ensures DistinctNames(Without(cs, k))
  {
    WithoutShifts(cs, k);
    var r := Without(cs, k);
    forall i, j | 0 <= i < j < |r| ensures !EqualsIgnoreCase(r[i].name, r[j].name) {
      var i', j' := if i < k then i else i + 1, if j < k then j else j + 1;
      assert r[i] == cs[i'] && r[j] == cs[j'] && i' < j';
    }
  }

  /** Appending a connection whose name is not yet taken keeps the names distinct. */
  lemma AppendKeepsDistinct(cs: seq<Conn>, c: Conn)
    requires DistinctNames(cs) && IndexOf(cs, c.name) == -1
    ensures DistinctNames(cs + [c])
  {
    var r := cs + [c];
    forall i, j | 0 <= i < j < |r| ensures !EqualsIgnoreCase(r[i].name, r[j].name) {
      if j == |cs| {
        assert !EqualsIgnoreCase(cs[i].name, c.name);
      } else {
        assert r[i] == cs[i] && r[j] == cs[j];
      }
    }
  }

  /** With distinct names, only the entry named `key` matches it. */
  lemma OnlyMatch(cs: seq<Conn>, k: nat, j: nat, key: string)
    requires DistinctNames(cs) && k < |cs| && j < |cs| && j != k && EqualsIgnoreCase(cs[k].name, key)
    ensures !EqualsIgnoreCase(cs[j].name, key)
  {
    if j < k {
      assert !EqualsIgnoreCase(cs[j].name, cs[k].name);
    } else {
      assert !EqualsIgnoreCase(cs[k].name, cs[j].name);
    }
  }

  /** With distinct names, looking a listed connection up by its own name (in any case) finds that connection. */
  lemma IndexOfMember(cs: seq<Conn>, j: nat, key: string)
    requires DistinctNames(cs) && j < |cs| && EqualsIgnoreCase(cs[j].name, key)
    ensures IndexOf(cs, key) == j
  {
    forall k | 0 <= k < j ensures !EqualsIgnoreCase(cs[k].name, key) {
      OnlyMatch(cs, j, k, key);
    }
    IndexOfFirst(cs, j, key);
  }

  /** Distinct names mean distinct connections. */
  lemma DistinctConns(cs: seq<Conn>, i: nat, j: nat)
    requires DistinctNames(cs) && i < |cs| && j < |cs| && i != j
    ensures cs[i] != cs[j]
  {
    if i < j {
      assert !EqualsIgnoreCase(cs[i].name, cs[j].name);
    } else {
      assert !EqualsIgnoreCase(cs[j].name, cs[i].name);
    }
  }

  /** The name `connect` registers under. */
  function ChosenName(name: Option<string>): (n: string)
    ensures n != []
    ensures name.Some? && name.value != [] ==> n == name.value
    ensures name.None? || name.value == [] ==> n == DefaultName
  {
    if name.None? || name.value == [] then DefaultName else name.value
  }

  /** The connection `update_current(NULL)` falls back to: the last one listed, or none. */
  function Fallback(cs: seq<Conn>): Conn?
  {
    if |cs| == 0 then null else cs[|cs| - 1]
  }

  /** The connection list and `current` of one `ODBCShell` configuration. */
  class Connections {
    var conns: seq<Conn>
    var current: Conn?

    /**
     * What the operations below keep: `current` is listed, there is a
     * current connection whenever any is open (so the `use` listing, which
     * reads `current->name`, never meets a NULL), and names are distinct
     * ignoring case (`connect` refuses a taken name).
     */
    ghost predicate Valid()
      reads this
    {
      (current != null ==> current in conns) &&
      (|conns| > 0 ==> current != null) &&
      DistinctNames(conns)
    }

    constructor ()
      ensures Valid() && conns == [] && current == null
    {
      conns := [];
      current := null;
    }

    /** `odbcshell_odbc_array_add`: append and count it; nothing else changes. */
    method ArrayAdd(c: Conn) returns (code: int)
      modifies this
      ensures code == 0
      ensures conns == old(conns) + [c] && current == old(current)
    {
      conns := conns + [c];
      code := 0;
    }

    /** `odbcshell_odbc_array_findindex`: the lowest case-insensitive match, else -1. */
    method FindIndex(name: string) returns (i: int)
      ensures i == IndexOf(conns, name)
      ensures i >= 0 ==> EqualsIgnoreCase(conns[i].name, name)
    {
      var k := 0;
      while k < |conns|
        invariant 0 <= k <= |conns|
        invariant forall j :: 0 <= j < k ==> !EqualsIgnoreCase(conns[j].name, name)
      {
        if EqualsIgnoreCase(conns[k].name, name) {
          IndexOfFirst(conns, k, name);
          return k;
        }
        k := k + 1;
      }
      return -1;
    }

    /**
     * `odbcshell_odbc_array_rm`: the first match is taken out by moving every
     * later entry one place down; an unknown name changes nothing. It
     * returns 0 either way and leaves `current` alone.
     */
    method ArrayRm(name: string) returns (code: int)
      modifies this
      ensures code == 0 && current == old(current)
      ensures var k := IndexOf(old(conns), name);
              conns == if k < 0 then old(conns) else Without(old(conns), k)
    {
      var k := FindIndex(name);
      code := 0;
      if k == -1 {
        return;
      }
      var i := k + 1;
      while i < |conns|
        invariant k + 1 <= i <= |conns| == |old(conns)|
        invariant forall j :: 0 <= j < k ==> conns[j] == old(conns)[j]
        invariant forall j :: k <= j < i - 1 ==> conns[j] == old(conns)[j + 1]
        invariant forall j :: i - 1 <= j < |conns| ==> conns[j] == old(conns)[j]
        invariant current == old(current)
      {
        conns := conns[i - 1 := conns[i]];
        i := i + 1;
      }
      conns := conns[..|conns| - 1];
      WithoutShifts(old(conns), k);
    }

    /**
     * `odbcshell_odbc_close`: every connection is freed, and freeing the
     * one `current` points at resets `current`; the list ends empty.
     */
    method Close() returns (code: int)
      modifies this
      ensures code == 0 && conns == []
      ensures current == if old(current) in old(conns) then null else old(current)
      ensures old(Valid()) ==> Valid() && current == null
    {
      var i := 0;
      while i < |conns|
        invariant 0 <= i <= |conns| && conns == old(conns)
        invariant current == if old(current) in old(conns)[..i] then null else old(current)
      {
        if current == conns[i] {
          current := null;
        }
        assert old(conns)[..i + 1] == old(conns)[..i] + [conns[i]];
        i := i + 1;
      }
      assert old(conns)[..i] == old(conns);
      conns := [];
      code := 0;
    }

    /**
     * `odbcshell_odbc_update_current`: a given connection becomes current
     * unconditionally; without one, an existing `current` stays and
     * otherwise the last listed connection (if any) takes its place.
     */
    method UpdateCurrent(conn: Conn?) returns (code: int)
      modifies this
      ensures code == 0 && conns == old(conns)
      ensures current == if conn != null then conn
                         else if old(current) != null then old(current)
                         else Fallback(conns)
    {
      code := 0;
      if conn == null && current != null {
        return;
      }
      if conn == null && |conns| == 0 {
        return;
      }
      var c := conn;
      if c == null {
        c := conns[|conns| - 1];
      }
      current := c;
    }

    /**
     * `odbcshell_odbc_connect`. A missing or empty name means "default"; a
     * name already listed (ignoring case) is refused with -1 and nothing
     * changes; so is a connection the driver does not complete
     * (`driverOk` false: a handle allocation or `SQLDriverConnect` failed).
     * Otherwise the new connection is appended and always made current,
     * even when another one was current before.
     */
    method Connect(dsn: string, name: Option<string>, driverOk: bool) returns (code: int)
      requires Valid()
      modifies this
      ensures Valid()
      ensures var n := ChosenName(name);
              if IndexOf(old(conns), n) >= 0 || !driverOk then
                code == -1 && conns == old(conns) && current == old(current)
              else
                code == 0 && |conns| == |old(conns)| + 1 && conns[..|old(conns)|] == old(conns) &&
                fresh(current) && current == conns[|old(conns)|] &&
                current.name == n && current.dsn == dsn
    {
      var n := ChosenName(name);
      var found := FindIndex(n);
      if found >= 0 {
        return -1;
      }
      var conn := new Conn(n, dsn);
      if !driverOk {
        // the connection is freed before it was ever listed or current
        return -1;
      }
      AppendKeepsDistinct(conns, conn);
      var added := ArrayAdd(conn);
      var _ := UpdateCurrent(conn);
      code := 0;
      assert conns[..|old(conns)|] == old(conns);
    }

    /**
     * `odbcshell_odbc_disconnect`. Without a name it disconnects the
     * current connection, and fails with -1 when there is none; an unknown
     * name fails with -1 and changes nothing. Otherwise the first match is
     * taken out of the list; when it was current, the last remaining
     * connection becomes current (none when the list is now empty), and
     * when it was not, `current` does not change.
     */
    method Disconnect(name: Option<string>) returns (code: int)
      requires Valid()
      modifies this
      ensures Valid()
      ensures name.None? && old(current) == null ==>
                code == -1 && conns == old(conns) && current == old(current)
      ensures name.Some? || old(current) != null ==>
                var key := if name.Some? then name.value else old(current).name;
                var k := IndexOf(old(conns), key);
                if k < 0 then
                  code == -1 && conns == old(conns) && current == old(current)
                else
                  code == 0 && conns == Without(old(conns), k) &&
                  current == if old(current) == old(conns)[k] then Fallback(conns) else old(current)
    {
      var key: string;
      if name.None? {
        if current == null {
          return -1;
        }
        key := current.name;
      } else {
        key := name.value;
      }
      ghost var was := current;
      ghost var at := IndexOf(conns, key);
      if current != null && EqualsIgnoreCase(key, current.name) {
        current := null;
      }
      var k := FindIndex(key);
      if k == -1 {
        if was != null {
          var j :| 0 <= j < |conns| && conns[j] == was;
          assert !EqualsIgnoreCase(conns[j].name, key);
          assert !EqualsIgnoreCase(key, was.name) by { EqualsIgnoreCaseSymmetric(key, was.name); }
        }
        return -1;
      }
      var conn := conns[k];
      if was != null {
        var j :| 0 <= j < |conns| && conns[j] == was;
        if was == conn {
          assert current == null by { EqualsIgnoreCaseSymmetric(conn.name, key); }
        } else {
          OnlyMatch(conns, k, j, key);
          EqualsIgnoreCaseSymmetric(key, was.name);
        }
      }
      var _ := ArrayRm(key);
      WithoutKeepsDistinct(old(conns), k);
      WithoutShifts(old(conns), k);
      // odbcshell_odbc_free(conn) resets `current` when it points at `conn`;
      // it never does here, as `current` was reset above when it named `conn`
      var _ := UpdateCurrent(null);
      code := 0;
      if was != null && was != conn {
        StaysListed(old(conns), k, was);
      }
    }

    /**
     * `odbcshell_odbc_reconnect`. Without a name it reconnects the current
     * connection and does nothing (returning 0) when there is none; an
     * unknown name also returns 0. Otherwise the matching connection's
     * statement handle is released and it is disconnected, then connected
     * again (`reconnects`) and given a new statement handle (`allocates`);
     * a failed step returns -1 and leaves the connection as far as it got.
     * The list and `current` are never touched.
     */
    method Reconnect(name: Option<string>, reconnects: bool, allocates: bool) returns (code: int)
      requires Valid()
      modifies conns
      ensures Valid()
      ensures name.None? && current == null ==> code == 0 && unchanged(conns)
      ensures name.Some? || current != null ==>
                var key := if name.Some? then name.value else current.name;
                var k := IndexOf(conns, key);
                if k < 0 then
                  code == 0 && unchanged(conns)
                else
                  code == (if reconnects && allocates then 0 else -1) &&
                  conns[k].connected == reconnects && conns[k].hasStmt == (reconnects && allocates) &&
                  forall j :: 0 <= j < |conns| && j != k ==> unchanged(conns[j])
    {
      var key: string;
      if name.None? {
        if current == null {
          return 0;
        }
        key := current.name;
      } else {
        key := name.value;
      }
      var k := FindIndex(key);
      if k == -1 {
        return 0;
      }
      forall j | 0 <= j < |conns| && j != k ensures conns[j] != conns[k] {
        DistinctConns(conns, j, k);
      }
      var conn := conns[k];
      conn.hasStmt := false;
      conn.connected := false;
      if !reconnects {
        return -1;
      }
      conn.connected := true;
      if !allocates {
        return -1;
      }
      conn.hasStmt := true;
      code := 0;
    }

    /**
     * `odbcshell_odbc_use`. Without a name it lists the connections and
     * returns 0; with one, the first case-insensitive match becomes current
     * and it returns 0, and an unknown name returns -1 with `current`
     * unchanged. The list itself never changes.
     */
    method Use(name: Option<string>) returns (code: int)
      requires Valid()
      modifies this
      ensures Valid() && conns == old(conns)
      ensures name.None? ==> code == 0 && current == old(current)
      ensures name.Some? ==>
                var k := IndexOf(conns, name.value);
                if k < 0 then code == -1 && current == old(current)
                else code == 0 && current == conns[k]
    {
      if name.None? {
        // the listing marks the entry whose name matches `current`'s, which
        // Valid() guarantees exists whenever the list is not empty
        return 0;
      }
      var i := 0;
      while i < |conns|
        invariant 0 <= i <= |conns| && conns == old(conns) && current == old(current)
        invariant forall j :: 0 <= j < i ==> !EqualsIgnoreCase(name.value, conns[j].name)
      {
        if EqualsIgnoreCase(name.value, conns[i].name) {
          EqualsIgnoreCaseSymmetric(name.value, conns[i].name);
          forall j | 0 <= j < i ensures !EqualsIgnoreCase(conns[j].name, name.value) {
            EqualsIgnoreCaseSymmetric(conns[j].name, name.value);
          }
          IndexOfFirst(conns, i, name.value);
          var _ := UpdateCurrent(conns[i]);
          return 0;
        }
        i := i + 1;
      }
      forall j | 0 <= j < |conns| ensures !EqualsIgnoreCase(conns[j].name, name.value) {
        EqualsIgnoreCaseSymmetric(conns[j].name, name.value);
      }
      return -1;
    }
  }

  /** Every connection but the one taken out is still listed. */
  lemma StaysListed(cs: seq<Conn>, k: nat, c: Conn)
    requires k < |cs| && c in cs && c != cs[k]
    ensures c in Without(cs, k)
  {
    var j :| 0 <= j < |cs| && cs[j] == c;
    WithoutShifts(cs, k);
    if j < k { assert Without(cs, k)[j] == c; } else { assert Without(cs, k)[j - 1] == c; }
  }

  /** A match with no earlier match is where the lookup stops. */
  lemma IndexOfFirst(cs: seq<Conn>, k: nat, key: string)
    requires k < |cs| && EqualsIgnoreCase(cs[k].name, key)
    requires forall j :: 0 <= j < k ==> !EqualsIgnoreCase(cs[j].name, key)
    ensures IndexOf(cs, key) == k
  {
  }

  lemma EqualsIgnoreCaseSymmetric(a: string, b: string)
    ensures EqualsIgnoreCase(a, b) == EqualsIgnoreCase(b, a)
  {
  }
}
