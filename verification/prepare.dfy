/** Validation of an insert statement's arguments into a row. */
module Prepare {
  import opened Bytes
  import opened Layout
  import opened RowCodec
  import opened Table

  datatype PrepareResult =
    | PrepareSuccess(row: Row)
    | PrepareStringTooLong
    | PrepareNegativeId
    | PrepareSyntaxError

  /** `s` laid into a field of width `w`: the bytes of `s`, then zeros. */
  function Pad(s: seq<byte>, w: nat): (f: seq<byte>)
    requires |s| <= w
    ensures |f| == w && f[..|s|] == s
    ensures forall i :: |s| <= i < w ==> f[i] == 0
  {
    s + Zeros(w - |s|)
  }

  /** Builds the row of an insert statement from the tokens after the
      keyword. A missing token is `None`; `id` is the token's integer value.
      Checks, in order: all three tokens present, id not negative, username
      within COL_USERNAME_SIZE bytes, email within COL_EMAIL_SIZE bytes. */
  function PrepareInsert(id: Option<int32>, username: Option<seq<byte>>, email: Option<seq<byte>>): (r: PrepareResult)
    ensures r.PrepareSyntaxError? <==> id.None? || username.None? || email.None?
    ensures r.PrepareNegativeId? <==>
              id.Some? && username.Some? && email.Some? && id.value < 0
    ensures r.PrepareStringTooLong? <==>
              && id.Some? && username.Some? && email.Some? && id.value >= 0
              && (|username.value| > COL_USERNAME_SIZE || |email.value| > COL_EMAIL_SIZE)
    ensures r.PrepareSuccess? ==>
              && r.row.WellFormed()
              && r.row.id as int == id.value as int
              && r.row.username[..|username.value|] == username.value
              && r.row.email[..|email.value|] == email.value
  {
    if id.None? || username.None? || email.None? then PrepareSyntaxError
    else if id.value < 0 then PrepareNegativeId
    else if |username.value| > COL_USERNAME_SIZE then PrepareStringTooLong
    else if |email.value| > COL_EMAIL_SIZE then PrepareStringTooLong
    else PrepareSuccess(Row(id.value as int as uint32,
                            Pad(username.value, USERNAME_SIZE),
                            Pad(email.value, EMAIL_SIZE)))
  }

  /** A prepared row, inserted into a table with room and selected back,
      carries the statement's id and begins each text field with its token. */
  lemma PreparedRowSurvivesInsert(id: int32, username: seq<byte>, email: seq<byte>, t: Table)
    requires PrepareInsert(Some(id), Some(username), Some(email)).PrepareSuccess?
    requires t.Valid() && t.numRows < TABLE_MAX_ROWS
    ensures var row := PrepareInsert(Some(id), Some(username), Some(email)).row;
            var stored := RowAt(ExecuteInsert(row, t).table.pager, t.numRows);
            && stored.id as int == id as int
            && stored.username[..|username|] == username
            && stored.email[..|email|] == email
  {
    InsertStoresRow(PrepareInsert(Some(id), Some(username), Some(email)).row, t);
  }

  /** The bytes a NUL-terminated string copy writes: the token and its terminator. */
  function StrcpyBytes(s: seq<byte>): (w: seq<byte>)
    ensures |w| == |s| + 1 && w[..|s|] == s && w[|s|] == 0
  {
    s + [0]
  }

  /** Bytes of the row record in memory: the three fields, then one byte
      of padding that rounds the record up to the id's 4-byte alignment. */
  const ROW_RECORD_SIZE: nat := 292

  /** A token as a C string holds no NUL byte. */
  predicate NulFree(s: seq<byte>)
  {
    forall i :: 0 <= i < |s| ==> s[i] != 0
  }

  /** `src` copied over `dest` starting at byte `at`. */
  function CopyAt(dest: seq<byte>, at: nat, src: seq<byte>): (d: seq<byte>)
    requires at + |src| <= |dest|
    ensures |d| == |dest| && d[at..at + |src|] == src
    ensures forall k :: 0 <= k < |dest| && (k < at || at + |src| <= k) ==> d[k] == dest[k]
  {
    dest[..at] + src + dest[at + |src|..]
  }

  /** The record's bytes after the two terminated string copies as written:
      the username with its NUL at the username offset, then the email with
      its NUL at the email offset. */
  function CopyTokensAsWritten(record: seq<byte>, username: seq<byte>, email: seq<byte>): (d: seq<byte>)
    requires |record| == ROW_RECORD_SIZE
    requires |username| <= COL_USERNAME_SIZE && |email| <= COL_EMAIL_SIZE
    ensures |d| == ROW_RECORD_SIZE
    ensures d[..USERNAME_OFFSET] == record[..USERNAME_OFFSET]
    ensures d[USERNAME_OFFSET..USERNAME_OFFSET + |username|] == username
    ensures |username| < COL_USERNAME_SIZE ==> d[USERNAME_OFFSET + |username|] == 0
    ensures forall k :: USERNAME_OFFSET + |username| + 1 <= k < EMAIL_OFFSET ==> d[k] == record[k]
    ensures d[EMAIL_OFFSET..EMAIL_OFFSET + |email| + 1] == StrcpyBytes(email)
    ensures forall k :: EMAIL_OFFSET + |email| + 1 <= k < ROW_RECORD_SIZE ==> d[k] == record[k]
  {
    CopyAt(CopyAt(record, USERNAME_OFFSET, StrcpyBytes(username)), EMAIL_OFFSET, StrcpyBytes(email))
  }

  /** As written, the length checks admit a username of exactly
      COL_USERNAME_SIZE bytes and an email of exactly COL_EMAIL_SIZE bytes.
      The username's terminator lands on the email's first byte and is
      overwritten by the email copy; the email's terminator lands in the
      record's padding byte. Neither field is left holding a NUL, so a
      reader that stops at the terminator runs past both fields. */
  lemma FullWidthTokensLeaveFieldsUnterminated(record: seq<byte>, username: seq<byte>, email: seq<byte>)
    requires |record| == ROW_RECORD_SIZE
    requires |username| == COL_USERNAME_SIZE && |email| == COL_EMAIL_SIZE
    requires NulFree(username) && NulFree(email)
    ensures PrepareInsert(Some(0), Some(username), Some(email)).PrepareSuccess?
    ensures USERNAME_OFFSET + |StrcpyBytes(username)| == EMAIL_OFFSET + 1
    ensures var d := CopyTokensAsWritten(record, username, email);
            && d[USERNAME_OFFSET..EMAIL_OFFSET] == username
            && d[EMAIL_OFFSET..ROW_SIZE] == email
            && d[ROW_SIZE] == 0
            && forall i :: USERNAME_OFFSET <= i < ROW_SIZE ==> d[i] != 0
  {
    var d1 := CopyAt(record, USERNAME_OFFSET, StrcpyBytes(username));
    var d := CopyTokensAsWritten(record, username, email);
    assert d[USERNAME_OFFSET..EMAIL_OFFSET] == d1[USERNAME_OFFSET..EMAIL_OFFSET];
    assert d1[USERNAME_OFFSET..EMAIL_OFFSET] == username;
    assert d[EMAIL_OFFSET..ROW_SIZE] == email;
    forall i | USERNAME_OFFSET <= i < ROW_SIZE
      ensures d[i] != 0
    {
      if i < EMAIL_OFFSET {
        assert d[i] == d[USERNAME_OFFSET..EMAIL_OFFSET][i - USERNAME_OFFSET];
      } else {
        assert d[i] == d[EMAIL_OFFSET..ROW_SIZE][i - EMAIL_OFFSET];
      }
    }
  }
}
