/**
 * The `users.txt` record file: one `username passwordHash` pair per line.
 * `Storage.addUserToFile` writes a record as `username + " " + hash + "\n"`;
 * `Storage.loadUsersFromFile` reads the file back with `split("\n")` and then
 * `split(" ")` on every line.
 */
module Records {

  datatype UserRecord = UserRecord(username: string, passwordHash: string)

  /** JavaScript's `String.prototype.split` with a one-character separator. */
  function Split(s: string, sep: char): (parts: seq<string>)
    ensures |parts| >= 1
    ensures forall i :: 0 <= i < |parts| ==> sep !in parts[i]
    ensures JoinFields(parts, sep) == s
  {
    if s == [] then [""]
    else
      var rest := Split(s[1..], sep);
      if s[0] == sep then [""] + rest
      else [[s[0]] + rest[0]] + rest[1..]
  }

  /** The inverse of Split: the pieces with one separator between each two. */
  function JoinFields(parts: seq<string>, sep: char): string
  {
    if parts == [] then ""
    else if |parts| == 1 then parts[0]
    else parts[0] + [sep] + JoinFields(parts[1..], sep)
  }

  /** A piece without the separator before a separator splits off as a field of its own. */
  lemma {:induction false} SplitAtFirstSeparator(a: string, sep: char, b: string)
    requires sep !in a
    ensures Split(a + [sep] + b, sep) == [a] + Split(b, sep)
  {
    var s := a + [sep] + b;
    if a == [] {
      assert s[1..] == b;
    } else {
      assert s[1..] == a[1..] + [sep] + b;
      SplitAtFirstSeparator(a[1..], sep, b);
      assert [a[0]] + a[1..] == a;
    }
  }

  /** A string without the separator splits into itself alone. */
  lemma {:induction false} SplitWithoutSeparator(a: string, sep: char)
    requires sep !in a
    ensures Split(a, sep) == [a]
  {
    if a != [] {
      SplitWithoutSeparator(a[1..], sep);
      assert [a[0]] + a[1..] == a;
    }
  }

  /**
   * One line of the file. `let [username, passwordHash] = line.split(" ")`
   * leaves `passwordHash` undefined on a line without a space, and the User
   * constructor's default parameter then turns it into "". Fields after the
   * second are ignored.
   */
  function ParseLine(line: string): UserRecord
  {
    var fields := Split(line, ' ');
    UserRecord(fields[0], if |fields| > 1 then fields[1] else "")
  }

  function ParseLines(lines: seq<string>): seq<UserRecord>
  {
    if lines == [] then [] else [ParseLine(lines[0])] + ParseLines(lines[1..])
  }

  /** Every record of a file, in file order, including the one for a trailing empty line. */
  function ParseFile(data: string): seq<UserRecord>
  {
    ParseLines(Split(data, '\n'))
  }

  /** The line `addUserToFile` appends for one user. */
  function RecordLine(r: UserRecord): string
  {
    r.username + " " + r.passwordHash + "\n"
  }

  /** A file written by appending the records one after another to an empty file. */
  function Serialise(recs: seq<UserRecord>): string
  {
    if recs == [] then "" else RecordLine(recs[0]) + Serialise(recs[1..])
  }

  /** Neither field holds a field or a line separator. */
  predicate Storable(r: UserRecord)
  {
    ' ' !in r.username && '\n' !in r.username && ' ' !in r.passwordHash && '\n' !in r.passwordHash
  }

  /** The record whose username is "" that the trailing newline of every written file produces. */
  const EmptyRecord := UserRecord("", "")

  /**
   * Reading back a single written line gives the same pair, followed by the
   * empty record that the trailing newline produces.
   */
  lemma {:induction false} LineRoundTrip(r: UserRecord)
    requires Storable(r)
    ensures ParseFile(RecordLine(r)) == [r, EmptyRecord]
  {
    var line := r.username + " " + r.passwordHash;
    assert RecordLine(r) == line + ['\n'] + "";
    SplitAtFirstSeparator(line, '\n', "");
    assert line == r.username + [' '] + r.passwordHash;
    SplitAtFirstSeparator(r.username, ' ', r.passwordHash);
    SplitWithoutSeparator(r.passwordHash, ' ');
    assert ParseLine(line) == r;
    assert ParseLine("") == EmptyRecord;
    assert ParseLines([line, ""]) == [ParseLine(line)] + ParseLines([""]);
  }

  /**
   * Reading back a file written record by record gives those records in
   * order, followed by the empty record.
   */
  lemma {:induction false} FileRoundTrip(recs: seq<UserRecord>)
    requires forall i :: 0 <= i < |recs| ==> Storable(recs[i])
    ensures ParseFile(Serialise(recs)) == recs + [EmptyRecord]
  {
    if recs == [] {
      assert ParseLine("") == EmptyRecord;
    } else {
      var r := recs[0];
      var line := r.username + " " + r.passwordHash;
      var rest := Serialise(recs[1..]);
      assert Serialise(recs) == line + ['\n'] + rest;
      SplitAtFirstSeparator(line, '\n', rest);
      assert line == r.username + [' '] + r.passwordHash;
      SplitAtFirstSeparator(r.username, ' ', r.passwordHash);
      SplitWithoutSeparator(r.passwordHash, ' ');
      assert ParseLine(line) == r;
      var lines := [line] + Split(rest, '\n');
      assert lines[1..] == Split(rest, '\n');
      FileRoundTrip(recs[1..]);
      assert recs == [r] + recs[1..];
    }
  }

  /** The user table a load builds from the records: a later record for a name replaces an earlier one. */
  function Tabulate(recs: seq<UserRecord>): (table: map<string, string>)
    ensures table.Keys == set i | 0 <= i < |recs| :: recs[i].username
  {
    if recs == [] then map[]
    else
      var last := recs[|recs| - 1];
      var prefix := recs[..|recs| - 1];
      var t := Tabulate(prefix);
      assert forall i :: 0 <= i < |prefix| ==> prefix[i] == recs[i];
      t[last.username := last.passwordHash]
  }

  /** Extending the records by one more overwrites that record's name. */
  lemma TabulateAppend(recs: seq<UserRecord>, i: nat)
    requires i < |recs|
    ensures Tabulate(recs[..i + 1]) == Tabulate(recs[..i])[recs[i].username := recs[i].passwordHash]
  {
    assert recs[..i + 1][..i] == recs[..i];
  }

  /** The table holds, for each name, the hash of the last record with that name. */
  lemma {:induction false} TabulateLastWins(recs: seq<UserRecord>, i: nat)
    requires i < |recs|
    requires forall j :: i < j < |recs| ==> recs[j].username != recs[i].username
    ensures recs[i].username in Tabulate(recs)
    ensures Tabulate(recs)[recs[i].username] == recs[i].passwordHash
  {
    if i < |recs| - 1 {
      var prefix := recs[..|recs| - 1];
      assert prefix[i] == recs[i];
      TabulateLastWins(prefix, i);
    }
  }
}
