/**
 * The pure checks of the fallback updater: which update e-mails it trusts
 * (the subject prefix and the sender allow-list), how it reads its settings
 * from `.env` lines, which attachments of a message it uses, and how it
 * compares the checksum file with the digest of the archive.
 */
module EmailRules {
  import opened Wrappers
  import opened Strings

  /** `SUBJECT_PREFIX`: every update e-mail's subject starts with it. */
  const SubjectPrefix: string := "[DRIFTCADE-UPDATE]"

  /** `_is_subject_valid`: the stripped subject starts with the prefix. */
  predicate IsSubjectValid(subject: string) {
    StartsWith(Strip(subject), SubjectPrefix)
  }

  /**
   * Only leading whitespace is skipped before the prefix: a subject is valid
   * exactly when it starts with the prefix once its leading whitespace is
   * dropped. Trailing whitespace never matters, since the prefix ends in `]`.
   */
  lemma SubjectValidIff(subject: string)
    ensures IsSubjectValid(subject) <==> StartsWith(LStrip(subject), SubjectPrefix)
  {
    var l := LStrip(subject);
    var n := |SubjectPrefix|;
    assert Strip(subject) == RStrip(l);
    if StartsWith(l, SubjectPrefix) {
      assert l[n - 1] == SubjectPrefix[n - 1];
      RStripKeepsPrefix(l, n);
    } else if n <= |RStrip(l)| {
      RStripPrefix(l, n);
    }
  }

  // The verdicts the module's own self-test expects, one lemma per subject.

  lemma SelfTestPrefixWithText()
    ensures IsSubjectValid("[DRIFTCADE-UPDATE] Emergency fix")
  {
    var s := "[DRIFTCADE-UPDATE] Emergency fix";
    LStripKeeps(s);
    SubjectValidIff(s);
    assert s[..|SubjectPrefix|] == SubjectPrefix;
  }

  lemma SelfTestBarePrefix()
    ensures IsSubjectValid("[DRIFTCADE-UPDATE]")
  {
    var s := "[DRIFTCADE-UPDATE]";
    LStripKeeps(s);
    SubjectValidIff(s);
  }

  lemma SelfTestReplyRejected()
    ensures !IsSubjectValid("Re: [DRIFTCADE-UPDATE] Fix")
  {
    var s := "Re: [DRIFTCADE-UPDATE] Fix";
    LStripKeeps(s);
    SubjectValidIff(s);
    assert !StartsWith(s, SubjectPrefix) by {
      assert s[..|SubjectPrefix|][0] == 'R' != SubjectPrefix[0];
    }
  }

  lemma SelfTestSpamRejected()
    ensures !IsSubjectValid("Random spam")
  {
    var s := "Random spam";
    LStripKeeps(s);
    SubjectValidIff(s);
  }

  /**
   * The address inside the first `<…>` of a `From` header, as the search
   * for `<([^>]+)>` finds it: the leftmost `<` that is followed, at least one
   * character later, by a `>`; the address runs up to the first such `>`.
   */
  function AngleAddress(s: string): (r: Option<string>)
    ensures '<' !in s ==> r.None?
    ensures r.Some? ==> r.value != [] && '>' !in r.value
    decreases |s|
  {
    match IndexOf(s, '<')
    case None => None
    case Some(i) =>
      var rest := s[i + 1..];
      match IndexOf(rest, '>')
      case None => None
      case Some(j) => if j > 0 then Some(rest[..j]) else AngleAddress(rest)
  }

  /**
   * A name-decorated address, `Name <addr>` (the name-addr form of section
   * 3.4 of RFC 5322), yields exactly `addr`, whatever follows it.
   */
  lemma AngleAddressOf(name: string, addr: string, rest: string)
    requires '<' !in name && addr != [] && '>' !in addr
    ensures AngleAddress(name + "<" + addr + ">" + rest) == Some(addr)
  {
    var s := name + "<" + addr + ">" + rest;
    assert s[..|name|] == name;
    assert s[|name|] == '<';
    IndexOfAt(s, '<', |name|);
    var r := s[|name| + 1..];
    assert r == addr + ">" + rest;
    assert r[..|addr|] == addr;
    assert r[|addr|] == '>';
    IndexOfAt(r, '>', |addr|);
  }

  /** Lower-casing never moves a character that is not a letter. */
  lemma LowerIndexOf(s: string, c: char)
    requires !('A' <= c <= 'Z') && !('a' <= c <= 'z')
    ensures IndexOf(Lower(s), c) == IndexOf(s, c)
  {
    var t := Lower(s);
    forall k | 0 <= k < |s|
      ensures t[k] == c <==> s[k] == c
    {
    }
    match IndexOf(s, c)
    case None =>
      assert c !in t;
    case Some(i) =>
      forall k | 0 <= k < i
        ensures t[..i][k] != c
      {
        assert s[..i][k] == s[k];
      }
      assert c !in t[..i];
      IndexOfAt(t, c, i);
  }

  /** Finding the address commutes with lower-casing the header. */
  lemma {:induction false} LowerAngleAddress(s: string)
    ensures AngleAddress(Lower(s)) == if AngleAddress(s).Some? then Some(Lower(AngleAddress(s).value)) else None
    decreases |s|, 1
  {
    LowerIndexOf(s, '<');
    match IndexOf(s, '<')
    case None =>
    case Some(i) =>
      LowerAngleAfterOpen(s, i);
  }

  /** The same, once the first `<` of the header is found at `i`. */
  lemma {:induction false} LowerAngleAfterOpen(s: string, i: nat)
    requires IndexOf(s, '<') == Some(i)
    ensures AngleAddress(Lower(s)) == if AngleAddress(s).Some? then Some(Lower(AngleAddress(s).value)) else None
    decreases |s|, 0
  {
    var t := Lower(s);
    LowerIndexOf(s, '<');
    var rest := s[i + 1..];
    var lowered := t[i + 1..];
    LowerSlice(s, i + 1, |s|);
    assert lowered == Lower(rest);
    LowerIndexOf(rest, '>');
    match IndexOf(rest, '>')
    case None =>
      assert AngleAddress(t) == None;
    case Some(j) =>
      if j > 0 {
        LowerSlice(rest, 0, j);
        assert lowered[..j] == Lower(rest[..j]);
        assert AngleAddress(t) == Some(lowered[..j]);
      } else {
        LowerAngleAddress(rest);
        assert AngleAddress(t) == AngleAddress(lowered);
      }
  }

  /**
   * `_is_sender_allowed`: an empty allow-list trusts nobody; otherwise the
   * address, taken from its `<…>` when the header has one, must be on the
   * list once lower-cased.
   */
  predicate IsSenderAllowed(allowed: seq<string>, sender: string) {
    if allowed == [] then false
    else
      var address := match AngleAddress(sender) case Some(a) => a case None => sender;
      Lower(address) in allowed
  }

  /** A `Name <addr>` sender is trusted exactly when `addr`, lower-cased, is listed. */
  lemma NamedSenderAllowed(allowed: seq<string>, name: string, addr: string, rest: string)
    requires '<' !in name && addr != [] && '>' !in addr
    ensures IsSenderAllowed(allowed, name + "<" + addr + ">" + rest) <==> allowed != [] && Lower(addr) in allowed
  {
    AngleAddressOf(name, addr, rest);
  }

  /** A bare sender is trusted exactly when it is listed once lower-cased. */
  lemma BareSenderAllowed(allowed: seq<string>, sender: string)
    requires '<' !in sender
    ensures IsSenderAllowed(allowed, sender) <==> allowed != [] && Lower(sender) in allowed
  {
  }

  /** The case of the `From` header never changes the verdict. */
  lemma SenderCaseInsensitive(allowed: seq<string>, sender: string)
    ensures IsSenderAllowed(allowed, Lower(sender)) == IsSenderAllowed(allowed, sender)
  {
    LowerAngleAddress(sender);
    match AngleAddress(sender)
    case Some(a) =>
      LowerIdempotent(a);
    case None =>
      LowerIdempotent(sender);
  }

  /** What the allow-list keeps of each comma-separated piece: stripped and lower-cased, blanks dropped. */
  function KeepSenders(parts: seq<string>): seq<string> {
    if parts == [] then [] else Kept(parts[0]) + KeepSenders(parts[1..])
  }

  /** What the allow-list keeps of one piece. */
  function Kept(piece: string): seq<string> {
    if Strip(piece) != [] then [Lower(Strip(piece))] else []
  }

  /** The allow-list read from `EMAIL_ALLOWED_SENDERS`. */
  function ParseSenders(s: string): seq<string> {
    KeepSenders(Split(s, ','))
  }

  /** A well-formed allow-list entry: not blank, lower-case, stripped, without a comma. */
  predicate IsSenderEntry(e: string) {
    e != [] && Lower(e) == e && Strip(e) == e && ',' !in e
  }

  /** An entry is kept exactly when it comes from a piece that is not blank. */
  lemma {:induction false} KeepSendersMembers(parts: seq<string>)
    ensures forall e :: e in KeepSenders(parts) <==> exists x :: x in parts && Strip(x) != [] && e == Lower(Strip(x))
  {
    if parts != [] {
      KeepSendersMembers(parts[1..]);
      assert forall x :: x in parts <==> x == parts[0] || x in parts[1..];
    }
  }

  /** `strip` keeps a piece of its argument. */
  lemma StripWithin(s: string, c: char)
    requires c !in s
    ensures c !in Strip(s)
  {
    StripSlice(s);
  }

  /** Lower-casing keeps whitespace and non-whitespace apart. */
  lemma LowerKeepsSpace(c: char)
    ensures IsSpace(LowerChar(c)) == IsSpace(c)
  {
  }

  /** A stripped string stays stripped once lower-cased. */
  lemma LowerStripped(t: string)
    requires Strip(t) == t
    ensures Strip(Lower(t)) == Lower(t)
  {
    StripEnds(t);
    if t != [] {
      LowerKeepsSpace(t[0]);
      LowerKeepsSpace(t[|t| - 1]);
    }
    StripUntrimmed(Lower(t));
  }

  /** Lower-casing never introduces a comma. */
  lemma LowerNoComma(t: string)
    requires ',' !in t
    ensures ',' !in Lower(t)
  {
    forall k | 0 <= k < |t|
      ensures Lower(t)[k] != ','
    {
    }
  }

  /** Every entry of a parsed allow-list is well formed. */
  lemma ParseSendersEntries(s: string)
    ensures forall e :: e in ParseSenders(s) ==> IsSenderEntry(e)
  {
    var parts := Split(s, ',');
    KeepSendersMembers(parts);
    forall e | e in ParseSenders(s)
      ensures IsSenderEntry(e)
    {
      var x :| x in parts && Strip(x) != [] && e == Lower(Strip(x));
      StripIdempotent(x);
      LowerIdempotent(Strip(x));
      LowerStripped(Strip(x));
      StripWithin(x, ',');
      LowerNoComma(Strip(x));
    }
  }

  /** A well-formed entry is kept as it is. */
  lemma KeptEntry(e: string)
    requires IsSenderEntry(e)
    ensures Kept(e) == [e]
  {
  }

  /** Pieces that are each kept as they are make a list kept as it is. */
  lemma {:induction false} KeepSendersFixed(parts: seq<string>)
    requires forall i :: 0 <= i < |parts| ==> Kept(parts[i]) == [parts[i]]
    ensures KeepSenders(parts) == parts
  {
    if parts != [] {
      KeepSendersFixed(parts[1..]);
      assert parts == [parts[0]] + parts[1..];
    }
  }

  /** A list of well-formed entries survives being written out comma-separated and read back. */
  lemma KeepSendersEntries(entries: seq<string>)
    requires forall e :: e in entries ==> IsSenderEntry(e)
    ensures KeepSenders(entries) == entries
  {
    forall i | 0 <= i < |entries|
      ensures Kept(entries[i]) == [entries[i]]
    {
      KeptEntry(entries[i]);
    }
    KeepSendersFixed(entries);
  }

  /** Parsing the comma-joined entries gives the entries back. */
  lemma ParseSendersRoundTrip(entries: seq<string>)
    requires |entries| >= 1 && forall e :: e in entries ==> IsSenderEntry(e)
    ensures ParseSenders(Join(entries, ',')) == entries
  {
    assert forall k :: 0 <= k < |entries| ==> entries[k] in entries;
    SplitJoin(entries, ',');
    KeepSendersEntries(entries);
  }

  /**
   * One line of `.env`: a stripped line that is not a comment and holds an
   * `=` gives its key and value, split at the first `=` and stripped.
   */
  function EnvLine(line: string): Option<(string, string)> {
    var l := Strip(line);
    if StartsWith(l, "#") then None
    else match IndexOf(l, '=')
      case None => None
      case Some(i) => Some((Strip(l[..i]), Strip(l[i + 1..])))
  }

  /** The key a line defines, if any. */
  function EnvKey(line: string): Option<string> {
    match EnvLine(line)
    case None => None
    case Some(kv) => Some(kv.0)
  }

  /** The definitions applied in order to an empty map; a later one overrides an earlier one. */
  function Apply(defs: seq<Option<(string, string)>>): map<string, string>
    decreases |defs|
  {
    if defs == [] then map[]
    else
      var before := Apply(defs[..|defs| - 1]);
      match defs[|defs| - 1]
      case None => before
      case Some(kv) => before[kv.0 := kv.1]
  }

  /** What each line of `.env` defines. */
  function Definitions(lines: seq<string>): (defs: seq<Option<(string, string)>>)
    ensures |defs| == |lines| && forall i :: 0 <= i < |lines| ==> defs[i] == EnvLine(lines[i])
  {
    seq(|lines|, i requires 0 <= i < |lines| => EnvLine(lines[i]))
  }

  /** `_load_env_config` on the lines of `.env`. */
  function ParseEnv(lines: seq<string>): map<string, string> {
    Apply(Definitions(lines))
  }

  /** Lines without `=`, and comment lines, define nothing. */
  lemma EnvLineIgnored(line: string)
    requires '=' !in line || StartsWith(Strip(line), "#")
    ensures EnvLine(line).None?
  {
    if '=' !in line {
      StripWithin(line, '=');
    }
  }

  /** `KEY=VALUE` gives back its key and value; the value may itself hold `=`. */
  lemma EnvLineRoundTrip(key: string, value: string)
    requires key != [] && Strip(key) == key && '=' !in key && key[0] != '#'
    requires Strip(value) == value
    ensures EnvLine(key + "=" + value) == Some((key, value))
  {
    var line := key + "=" + value;
    StripEnds(key);
    StripEnds(value);
    assert line[0] == key[0];
    assert line[|line| - 1] == if value == [] then '=' else value[|value| - 1];
    StripUntrimmed(line);
    assert !StartsWith(line, "#") by {
      assert line[..1][0] == key[0];
    }
    assert line[..|key|] == key;
    IndexOfAt(line, '=', |key|);
    assert line[|key| + 1..] == value;
  }

  /** A key is set exactly when some definition sets it. */
  lemma {:induction false} ApplyKeys(defs: seq<Option<(string, string)>>, key: string)
    ensures key in Apply(defs) <==> exists i :: 0 <= i < |defs| && defs[i].Some? && defs[i].value.0 == key
    decreases |defs|
  {
    if defs != [] {
      var n := |defs| - 1;
      var init := defs[..n];
      ApplyKeys(init, key);
      assert forall i :: 0 <= i < n ==> defs[i] == init[i];
    }
  }

  /** A set key holds the value of a definition of it that no later definition overrides. */
  lemma {:induction false} ApplyLastWins(defs: seq<Option<(string, string)>>, key: string)
    requires key in Apply(defs)
    ensures exists i :: (
      && 0 <= i < |defs| && defs[i] == Some((key, Apply(defs)[key]))
      && forall j :: i < j < |defs| ==> defs[j].None? || defs[j].value.0 != key)
    decreases |defs|
  {
    var n := |defs| - 1;
    var init := defs[..n];
    if defs[n].Some? && defs[n].value.0 == key {
      assert defs[n] == Some((key, Apply(defs)[key]));
    } else {
      assert Apply(defs)[key] == Apply(init)[key];
      ApplyLastWins(init, key);
      var i :| 0 <= i < n && init[i] == Some((key, Apply(init)[key]))
        && (forall j :: i < j < n ==> init[j].None? || init[j].value.0 != key);
      assert defs[i] == init[i];
      forall j | i < j < |defs|
        ensures defs[j].None? || defs[j].value.0 != key
      {
        if j < n {
          assert defs[j] == init[j];
        }
      }
    }
  }

  /**
   * The last definition wins: a key is set exactly when some line defines
   * it, and then it holds the value of a line that defines it and after
   * which no line defines it again.
   */
  lemma ParseEnvLastWins(lines: seq<string>, key: string)
    ensures key in ParseEnv(lines) <==> exists i :: 0 <= i < |lines| && EnvKey(lines[i]) == Some(key)
    ensures key in ParseEnv(lines) ==>
      exists i :: 0 <= i < |lines| && EnvLine(lines[i]) == Some((key, ParseEnv(lines)[key]))
        && (forall j :: i < j < |lines| ==> EnvKey(lines[j]) != Some(key))
  {
    var defs := Definitions(lines);
    ApplyKeys(defs, key);
    if key in ParseEnv(lines) {
      ApplyLastWins(defs, key);
    }
  }

  /** The digest matches the first whitespace-separated token of the checksum text, ignoring case. */
  predicate ChecksumMatches(digest: string, checksum: string)
    requires Words(checksum) != []
  {
    Lower(digest) == Lower(Words(checksum)[0])
  }

  /**
   * In the `hash  filename` format of checksum files, only the hash is
   * compared, and without regard to case.
   */
  lemma ChecksumLine(digest: string, hash: string, gap: string, filename: string)
    requires hash != [] && NoSpace(hash)
    requires gap == [] ==> filename == []
    requires gap != [] ==> IsSpace(gap[0])
    ensures Words(hash + gap + filename) != []
    ensures ChecksumMatches(digest, hash + gap + filename) <==> Lower(digest) == Lower(hash)
  {
    FirstWord(hash, gap, filename);
  }

  /**
   * One part of a message: its file name (absent when it has none), its
   * decoded payload (absent when it has none), and that payload read as
   * UTF-8 text (absent when it has no payload or does not decode).
   */
  datatype Part = Part(filename: Option<string>, payload: Option<seq<bv8>>, text: Option<string>)

  /** A part whose file name ends in `.zip`. */
  predicate IsZipPart(p: Part) {
    p.filename.Some? && EndsWith(p.filename.value, ".zip")
  }

  /** A part whose file name ends in `.sha256` or `.checksum` (and not `.zip`). */
  predicate IsChecksumPart(p: Part) {
    p.filename.Some? && !EndsWith(p.filename.value, ".zip")
    && (EndsWith(p.filename.value, ".sha256") || EndsWith(p.filename.value, ".checksum"))
  }

  /**
   * What the walk over the parts finds: the payload of the archive and the
   * text of the checksum file (stripped where it is used), or a checksum
   * file whose payload does not decode.
   */
  datatype Attachments = Attachments(zip: Option<seq<bv8>>, checksum: Option<string>) | Undecodable

  /** The walk over the parts, in order. */
  function Scan(parts: seq<Part>): Attachments
    decreases |parts|
  {
    if parts == [] then Attachments(None, None)
    else
      var before := Scan(parts[..|parts| - 1]);
      var p := parts[|parts| - 1];
      if before.Undecodable? then Undecodable
      else if IsZipPart(p) then before.(zip := p.payload)
      else if IsChecksumPart(p) then
        if p.text.None? then Undecodable
        else before.(checksum := p.text)
      else before
  }

  /** The walk fails exactly when some checksum file does not decode. */
  lemma {:induction false} ScanUndecodable(parts: seq<Part>)
    ensures Scan(parts).Undecodable? <==> exists i :: 0 <= i < |parts| && IsChecksumPart(parts[i]) && parts[i].text.None?
    decreases |parts|
  {
    if parts != [] {
      var n := |parts| - 1;
      var init := parts[..n];
      ScanUndecodable(init);
      assert forall i :: 0 <= i < n ==> parts[i] == init[i];
    }
  }

  /** Part `i` is the last `.zip` part. */
  predicate LastZip(parts: seq<Part>, i: int) {
    0 <= i < |parts| && IsZipPart(parts[i]) && forall j :: i < j < |parts| ==> !IsZipPart(parts[j])
  }

  /** Part `i` is the last checksum part. */
  predicate LastChecksum(parts: seq<Part>, i: int) {
    0 <= i < |parts| && IsChecksumPart(parts[i]) && forall j :: i < j < |parts| ==> !IsChecksumPart(parts[j])
  }

  /**
   * The archive is the payload of the last `.zip` part, and absent when
   * there is no such part.
   */
  lemma {:induction false} ScanZip(parts: seq<Part>)
    requires Scan(parts).Attachments?
    ensures forall i :: LastZip(parts, i) ==> Scan(parts).zip == parts[i].payload
    ensures (forall i :: 0 <= i < |parts| ==> !IsZipPart(parts[i])) ==> Scan(parts).zip.None?
    decreases |parts|
  {
    if parts != [] {
      var n := |parts| - 1;
      var init := parts[..n];
      var p := parts[n];
      assert forall i :: 0 <= i < n ==> parts[i] == init[i];
      assert Scan(init).Attachments?;
      ScanZip(init);
      if IsZipPart(p) {
        assert Scan(parts).zip == p.payload;
        forall i | LastZip(parts, i)
          ensures i == n
        {
        }
      } else {
        assert Scan(parts).zip == Scan(init).zip;
        forall i | LastZip(parts, i)
          ensures LastZip(init, i)
        {
        }
      }
    }
  }

  /**
   * The checksum is the text of the last checksum part, and absent
   * when there is no such part.
   */
  lemma {:induction false} ScanChecksum(parts: seq<Part>)
    requires Scan(parts).Attachments?
    ensures forall i :: LastChecksum(parts, i) ==>
      parts[i].text.Some? && Scan(parts).checksum == parts[i].text
    ensures (forall i :: 0 <= i < |parts| ==> !IsChecksumPart(parts[i])) ==> Scan(parts).checksum.None?
    decreases |parts|
  {
    if parts != [] {
      var n := |parts| - 1;
      var init := parts[..n];
      var p := parts[n];
      assert forall i :: 0 <= i < n ==> parts[i] == init[i];
      assert Scan(init).Attachments?;
      ScanChecksum(init);
      if IsChecksumPart(p) {
        assert p.text.Some? && Scan(parts).checksum == p.text;
        forall i | LastChecksum(parts, i)
          ensures i == n
        {
        }
      } else {
        assert Scan(parts).checksum == Scan(init).checksum;
        forall i | LastChecksum(parts, i)
          ensures LastChecksum(init, i)
        {
        }
      }
    }
  }

  /** Why a message was turned down before deploying anything. */
  datatype Rejection =
    | CouldNotFetch
    | NoZipAttachment
    | NoChecksumFile
    | ChecksumMismatch(expected: string, actual: string)
    | ProcessingError

  /** The checks of `process_update_email` before deploying: rejected, or the archive to deploy. */
  datatype Screening = Rejected(reason: Rejection) | Verified(zip: seq<bv8>)

  /** The first 16 characters, as shown in the mismatch message. */
  function Head16(s: string): string {
    if |s| <= 16 then s else s[..16]
  }

  /**
   * The checks in order: the message must have been fetched, its walk must
   * not fail, it needs a non-empty archive and a non-empty checksum, and the
   * archive's digest must match the checksum's first token.
   */
  function Screen(message: Option<seq<Part>>, hash: seq<bv8> -> string): Screening {
    if message.None? then Rejected(CouldNotFetch)
    else match Scan(message.value)
      case Undecodable => Rejected(ProcessingError)
      case Attachments(zip, text) =>
        if zip.None? || zip.value == [] then Rejected(NoZipAttachment)
        else if text.None? || Strip(text.value) == [] then Rejected(NoChecksumFile)
        else
          var checksum := Strip(text.value);
          StripIdempotent(text.value);
          WordsNonEmpty(checksum);
          Compare(zip.value, checksum, hash)
  }

  /** The last check: the archive's digest against the checksum's first token. */
  function Compare(zip: seq<bv8>, checksum: string, hash: seq<bv8> -> string): Screening
    requires Words(checksum) != []
  {
    var expected := Words(checksum)[0];
    var actual := hash(zip);
    if !ChecksumMatches(actual, checksum) then Rejected(ChecksumMismatch(Head16(expected), Head16(actual)))
    else Verified(zip)
  }

  /**
   * Nothing is deployed unless it is a non-empty archive attached to the
   * message whose digest matches the first token of the attached checksum.
   */
  lemma VerifiedIsChecked(parts: seq<Part>, hash: seq<bv8> -> string)
    requires Screen(Some(parts), hash).Verified?
    ensures var z := Screen(Some(parts), hash).zip;
      && z != []
      && (exists i :: 0 <= i < |parts| && IsZipPart(parts[i]) && parts[i].payload == Some(z))
      && (exists k :: 0 <= k < |parts| && IsChecksumPart(parts[k]) && parts[k].text.Some?
           && Words(Strip(parts[k].text.value)) != [] && ChecksumMatches(hash(z), Strip(parts[k].text.value)))
  {
    ScanUndecodable(parts);
    ScanZip(parts);
    ScanChecksum(parts);
    var a := Scan(parts);
    var z := a.zip.value;
    var c := Strip(a.checksum.value);
    StripIdempotent(a.checksum.value);
    WordsNonEmpty(c);
    var i := LastIndex(parts, IsZipPart);
    var k := LastIndex(parts, IsChecksumPart);
    assert LastZip(parts, i) && LastChecksum(parts, k);
    assert Strip(parts[k].text.value) == c;
  }

  /** The position of the last part satisfying `p`, where there is one. */
  lemma LastIndex(parts: seq<Part>, p: Part -> bool) returns (i: nat)
    requires exists j :: 0 <= j < |parts| && p(parts[j])
    ensures i < |parts| && p(parts[i]) && forall j :: i < j < |parts| ==> !p(parts[j])
  {
    i := |parts| - 1;
    while !p(parts[i])
      invariant 0 <= i < |parts|
      invariant forall j :: i < j < |parts| ==> !p(parts[j])
      invariant exists j :: 0 <= j <= i && p(parts[j])
      decreases i
    {
      i := i - 1;
    }
  }

  /**
   * A message carrying an archive and a `hash  filename` checksum file is
   * deployed exactly when the hash matches the archive's digest, ignoring
   * case; otherwise it is rejected as a mismatch.
   */
  lemma ArchiveWithChecksum(zipName: string, z: seq<bv8>, sumName: string, sum: string, gap: string, filename: string,
                            hash: seq<bv8> -> string)
    requires EndsWith(zipName, ".zip") && z != []
    requires !EndsWith(sumName, ".zip") && EndsWith(sumName, ".sha256")
    requires sum != [] && NoSpace(sum) && filename != [] && NoSpace(filename)
    requires gap != [] && forall k :: 0 <= k < |gap| ==> IsSpace(gap[k])
    ensures var parts := [Part(Some(zipName), Some(z), None), Part(Some(sumName), None, Some(sum + gap + filename))];
      Screen(Some(parts), hash) == if Lower(hash(z)) == Lower(sum) then Verified(z)
        else Rejected(ChecksumMismatch(Head16(sum), Head16(hash(z))))
  {
    var t := sum + gap + filename;
    assert t[0] == sum[0] && t[|t| - 1] == filename[|filename| - 1];
    StripUntrimmed(t);
    ChecksumLine(hash(z), sum, gap, filename);
    FirstWord(sum, gap, filename);
    var parts := [Part(Some(zipName), Some(z), None), Part(Some(sumName), None, Some(t))];
    ScanOfPair(parts[0], parts[1]);
    assert parts == [parts[0], parts[1]];
    ScreenFound(parts, hash, z, t);
    assert Words(t)[0] == sum;
  }

  /** The walk over an archive part followed by a checksum part. */
  lemma ScanOfPair(p0: Part, p1: Part)
    requires IsZipPart(p0) && IsChecksumPart(p1) && p1.text.Some?
    ensures Scan([p0, p1]) == Attachments(p0.payload, p1.text)
  {
    assert !IsZipPart(p1);
    assert [p0, p1][..1] == [p0];
    assert [p0][..0] == [];
    assert Scan([p0]) == Attachments(p0.payload, None);
  }

  /** The checksum comparison decides a message that has both attachments. */
  lemma ScreenFound(parts: seq<Part>, hash: seq<bv8> -> string, z: seq<bv8>, c: string)
    requires Scan(parts) == Attachments(Some(z), Some(c)) && z != [] && c != [] && Strip(c) == c && Words(c) != []
    ensures Screen(Some(parts), hash) == Compare(z, c, hash)
  {
  }

  /** The headers of an unseen message that `check_for_updates` reads. */
  datatype Header = Header(subject: string, sender: string)

  /** One entry of the list `check_for_updates` returns. */
  datatype Candidate = Candidate(id: string, subject: string, sender: string)

  /** Both checks pass on a message's headers. */
  predicate Trusted(h: Header, allowed: seq<string>) {
    IsSubjectValid(h.subject) && IsSenderAllowed(allowed, h.sender)
  }

  /** The unseen messages, in order, that are new, fetched and trusted. */
  function Candidates(ids: seq<string>, processed: set<string>, headers: map<string, Header>, allowed: seq<string>)
    : seq<Candidate>
    decreases |ids|
  {
    if ids == [] then []
    else
      var before := Candidates(ids[..|ids| - 1], processed, headers, allowed);
      var id := ids[|ids| - 1];
      if id !in processed && id in headers && Trusted(headers[id], allowed) then
        before + [Candidate(id, headers[id].subject, headers[id].sender)]
      else before
  }

  /** One more unseen message examined. */
  lemma CandidatesStep(ids: seq<string>, i: nat, processed: set<string>, headers: map<string, Header>,
                       allowed: seq<string>)
    requires i < |ids|
    ensures var id := ids[i];
      Candidates(ids[..i + 1], processed, headers, allowed)
        == if id !in processed && id in headers && Trusted(headers[id], allowed)
           then Candidates(ids[..i], processed, headers, allowed) + [Candidate(id, headers[id].subject, headers[id].sender)]
           else Candidates(ids[..i], processed, headers, allowed)
  {
    assert ids[..i + 1][..i] == ids[..i];
  }

  /**
   * A candidate is an unseen message that was not processed before, whose
   * headers were fetched and pass both checks, reported with those headers.
   */
  lemma {:induction false} CandidatesMembers(ids: seq<string>, processed: set<string>, headers: map<string, Header>,
                                             allowed: seq<string>)
    ensures forall c :: c in Candidates(ids, processed, headers, allowed) <==>
      && c.id in ids && c.id !in processed && c.id in headers
      && c == Candidate(c.id, headers[c.id].subject, headers[c.id].sender)
      && Trusted(headers[c.id], allowed)
    decreases |ids|
  {
    if ids != [] {
      var init := ids[..|ids| - 1];
      CandidatesMembers(init, processed, headers, allowed);
      assert ids == init + [ids[|ids| - 1]];
      assert forall x :: x in ids <==> x in init || x == ids[|ids| - 1];
    }
  }

  /** Filtering respects concatenation, so candidates keep the inbox order. */
  lemma {:induction false} CandidatesAppend(a: seq<string>, b: seq<string>, processed: set<string>,
                                            headers: map<string, Header>, allowed: seq<string>)
    ensures Candidates(a + b, processed, headers, allowed)
      == Candidates(a, processed, headers, allowed) + Candidates(b, processed, headers, allowed)
    decreases |b|
  {
    if b == [] {
      assert a + b == a;
    } else {
      var init := b[..|b| - 1];
      CandidatesAppend(a, init, processed, headers, allowed);
      assert (a + b)[..|a + b| - 1] == a + init;
      assert (a + b)[|a + b| - 1] == b[|b| - 1];
    }
  }

  /** An inbox with no eligible message has no candidates. */
  lemma {:induction false} NoCandidates(ids: seq<string>, processed: set<string>, headers: map<string, Header>,
                                        allowed: seq<string>)
    requires forall x :: x in ids ==> x in processed || x !in headers || !Trusted(headers[x], allowed)
    ensures Candidates(ids, processed, headers, allowed) == []
    decreases |ids|
  {
    if ids != [] {
      var init := ids[..|ids| - 1];
      assert forall x :: x in init ==> x in ids;
      NoCandidates(init, processed, headers, allowed);
      assert ids[|ids| - 1] in ids;
    }
  }

  /** The first candidate is the first eligible message of the inbox. */
  lemma FirstCandidate(before: seq<string>, id: string, after: seq<string>, processed: set<string>,
                       headers: map<string, Header>, allowed: seq<string>)
    requires forall x :: x in before ==> x in processed || x !in headers || !Trusted(headers[x], allowed)
    requires id !in processed && id in headers && Trusted(headers[id], allowed)
    ensures var cs := Candidates(before + [id] + after, processed, headers, allowed);
      cs != [] && cs[0] == Candidate(id, headers[id].subject, headers[id].sender)
  {
    NoCandidates(before, processed, headers, allowed);
    CandidatesAppend(before, [id], processed, headers, allowed);
    CandidatesAppend(before + [id], after, processed, headers, allowed);
    assert [id][..0] == [];
  }
}
