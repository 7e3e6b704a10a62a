/**
 The Pro session files, the decision to refresh and one refresh run by one
 process (src/auth/pro_refresh.rs). The exchange is the refresh grant of
 section 6 of RFC 6749; a rejection is an error response of its section 5.2.
 */
module ProSession {
  import opened Wrappers

  /** An access or id token; `exp` is None when the JWT has no decodable expiry. */
  datatype Token = Token(serial: nat, exp: Option<int>)

  /** The three session files after trimming; None is a missing or blank file. */
  datatype Files = Files(access: Option<Token>, idToken: Option<Token>, refresh: Option<nat>)

  /** What the IdP grants; None is an empty string. */
  datatype TokenSet = TokenSet(access: Option<Token>, idToken: Option<Token>, refresh: Option<nat>)

  datatype Reply = Granted(tokens: TokenSet) | Rejected | Transient

  datatype Outcome = NotNeeded | Refreshed | SkippedRefreshedByPeer

  datatype RefreshError = SessionExpired | NotConfigured | ExchangeFailed | LockFailed | StoreFailed

  function Exp(t: Option<Token>): Option<int> {
    match t
    case None => None
    case Some(token) => token.exp
  }

  function Earliest(a: Option<int>, b: Option<int>): Option<int> {
    match (a, b)
    case (Some(x), Some(y)) => Some(if x <= y then x else y)
    case (Some(_), None) => a
    case (None, _) => b
  }

  function EarliestExp(f: Files): Option<int> {
    Earliest(Exp(f.access), Exp(f.idToken))
  }

  predicate NearExpiry(exp: Option<int>, now: int, lead: int) {
    exp.Some? && exp.value - now <= lead
  }

  predicate NeedsRefresh(f: Files, now: int, lead: int) {
    NearExpiry(EarliestExp(f), now, lead)
  }

  /** Outcome when there is no refresh token to use. */
  function WithoutRefreshToken(f: Files, now: int): Result<Outcome, RefreshError> {
    match EarliestExp(f)
    case Some(exp) => if exp <= now then Failure(SessionExpired) else Success(NotNeeded)
    case None => Success(NotNeeded)
  }

  /** A token whose expiry is known and at or before `limit`. */
  predicate ExpiresBy(t: Option<Token>, limit: int) {
    t.Some? && t.value.exp.Some? && t.value.exp.value <= limit
  }

  /** A refresh is due exactly when one of the two tokens expires within the lead. */
  lemma RefreshIsDue(f: Files, now: int, lead: int)
    ensures NeedsRefresh(f, now, lead) <==> ExpiresBy(f.access, now + lead) || ExpiresBy(f.idToken, now + lead)
  {
  }

  /** Without a refresh token the session is over exactly when one of the two tokens has expired. */
  lemma SessionIsOver(f: Files, now: int)
    ensures WithoutRefreshToken(f, now)
            == if ExpiresBy(f.access, now) || ExpiresBy(f.idToken, now) then Failure(SessionExpired)
               else Success(NotNeeded)
  {
  }

  // ---------------------------------------------------------------------
  // The writes after a grant, in order
  // ---------------------------------------------------------------------

  datatype Target = RefreshFile | AccessFile | IdFile

  predicate Rotates(sent: nat, tokens: TokenSet) {
    tokens.refresh.Some? && tokens.refresh.value != sent
  }

  /** A rotated refresh token is persisted first. */
  function Targets(sent: nat, tokens: TokenSet): (r: seq<Target>)
    ensures r != [] && |r| <= 3
    ensures RefreshFile in r <==> Rotates(sent, tokens)
    ensures forall i :: 1 <= i < |r| ==> r[i] != RefreshFile
  {
    (if Rotates(sent, tokens) then [RefreshFile] else []) + [AccessFile]
        + (if tokens.idToken.Some? then [IdFile] else [])
  }

  function WriteTarget(f: Files, tokens: TokenSet, t: Target): Files {
    match t
    case RefreshFile => f.(refresh := tokens.refresh)
    case AccessFile => f.(access := tokens.access)
    case IdFile => f.(idToken := tokens.idToken)
  }

  function WriteTargets(f: Files, tokens: TokenSet, targets: seq<Target>): Files {
    if targets == [] then f
    else WriteTarget(WriteTargets(f, tokens, targets[..|targets| - 1]), tokens, targets[|targets| - 1])
  }

  /** The files after all writes of a grant. */
  function AfterGrant(f: Files, sent: nat, tokens: TokenSet): Files {
    Files(tokens.access,
          if tokens.idToken.Some? then tokens.idToken else f.idToken,
          if Rotates(sent, tokens) then tokens.refresh else f.refresh)
  }

  /** Wherever the writes stop, each file holds its complete old or its complete new value. */
  lemma {:induction false} PartialWritesAreWhole(f: Files, tokens: TokenSet, targets: seq<Target>)
    ensures var g := WriteTargets(f, tokens, targets);
            && g.access == (if AccessFile in targets then tokens.access else f.access)
            && g.idToken == (if IdFile in targets then tokens.idToken else f.idToken)
            && g.refresh == (if RefreshFile in targets then tokens.refresh else f.refresh)
  {
    if targets != [] {
      var n := |targets| - 1;
      PartialWritesAreWhole(f, tokens, targets[..n]);
      assert targets == targets[..n] + [targets[n]];
    }
  }

  /** All writes done, the files are those of the grant. */
  lemma WritesMakeGrant(f: Files, sent: nat, tokens: TokenSet)
    ensures WriteTargets(f, tokens, Targets(sent, tokens)) == AfterGrant(f, sent, tokens)
  {
    var targets := Targets(sent, tokens);
    PartialWritesAreWhole(f, tokens, targets);
    assert AccessFile in targets;
    assert IdFile in targets <==> tokens.idToken.Some?;
  }

  /** The order of the writes, and what none and all of them make. */
  lemma GrantPrefixes(f: Files, sent: nat, tokens: TokenSet)
    ensures var targets := Targets(sent, tokens);
            var k := if Rotates(sent, tokens) then 1 else 0;
            && |targets| == (if tokens.idToken.Some? then k + 2 else k + 1)
            && (k == 1 ==> targets[0] == RefreshFile)
            && targets[k] == AccessFile
            && (tokens.idToken.Some? ==> targets[k + 1] == IdFile)
            && WriteTargets(f, tokens, targets[..0]) == f
            && WriteTargets(f, tokens, targets[..|targets|]) == AfterGrant(f, sent, tokens)
  {
    WritesMakeGrant(f, sent, tokens);
    assert Targets(sent, tokens)[..|Targets(sent, tokens)|] == Targets(sent, tokens);
  }

  lemma WriteOneMore(f: Files, tokens: TokenSet, targets: seq<Target>, n: nat)
    requires n < |targets|
    ensures WriteTargets(f, tokens, targets[..n + 1])
            == WriteTarget(WriteTargets(f, tokens, targets[..n]), tokens, targets[n])
  {
    assert targets[..n + 1][..n] == targets[..n];
  }

  /**
   When a grant leaves nothing to refresh until `horizon`: exactly when neither
   the new access token nor the id token then on file is near expiry. An absent
   id token leaves the old one in force.
   */
  lemma FreshGrant(f: Files, sent: nat, tokens: TokenSet, horizon: int, lead: int)
    ensures !NeedsRefresh(AfterGrant(f, sent, tokens), horizon, lead) <==>
            && !NearExpiry(Exp(tokens.access), horizon, lead)
            && !NearExpiry(Exp(if tokens.idToken.Some? then tokens.idToken else f.idToken), horizon, lead)
  {
  }

  /** Staying near expiry is monotone in time. */
  lemma NeedsRefreshPersists(f: Files, now: int, later: int, lead: int)
    requires NeedsRefresh(f, now, lead) && now <= later
    ensures NeedsRefresh(f, later, lead)
  {
  }

  // ---------------------------------------------------------------------
  // One process
  // ---------------------------------------------------------------------

  /**
   What one run meets: whether the lock is obtained, the files a peer left by
   then, the clock at the later reads, the IdP's reply to a token, whether a
   rejected token can be removed, how many file writes succeed, and whether
   the one that fails does so only after its rename.
   */
  datatype Surroundings = Surroundings(
    lockAcquired: bool,
    peer: Files,
    nowLocked: int,
    nowRead: int,
    exchange: nat -> Reply,
    removable: bool,
    store: nat,
    late: bool)

  /** Outcome and files of one run that obtained the lock. */
  function LockedAttempt(lead: int, w: Surroundings): (Result<Outcome, RefreshError>, Files) {
    if !NeedsRefresh(w.peer, w.nowLocked, lead) then (Success(SkippedRefreshedByPeer), w.peer)
    else
      match w.peer.refresh
      case None => (WithoutRefreshToken(w.peer, w.nowRead), w.peer)
      case Some(sent) =>
        match w.exchange(sent)
        case Rejected => (Failure(SessionExpired), if w.removable then w.peer.(refresh := None) else w.peer)
        case Transient => (Failure(ExchangeFailed), w.peer)
        case Granted(tokens) =>
          var targets := Targets(sent, tokens);
          if w.store >= |targets| then (Success(Refreshed), AfterGrant(w.peer, sent, tokens))
          else (Failure(StoreFailed), WriteTargets(w.peer, tokens, targets[..if w.late then w.store + 1 else w.store]))
  }

  function Attempt(f: Files, now: int, lead: int, w: Surroundings): (Result<Outcome, RefreshError>, Files) {
    if !NeedsRefresh(f, now, lead) then (Success(NotNeeded), f)
    else if !w.lockAcquired then (Failure(LockFailed), f)
    else LockedAttempt(lead, w)
  }

  class SessionStore {
    var files: Files

    constructor (files: Files)
      ensures this.files == files
    {
      this.files := files;
    }

    /** The `n`-th secret file written; a failure may come before or, if `late`, after the rename. */
    method WriteOne(
        ghost start: Files, ghost targets: seq<Target>, n: nat, tokens: TokenSet, t: Target, store: nat, late: bool)
      returns (ok: bool)
      requires n < |targets| && targets[n] == t && n <= store
      requires files == WriteTargets(start, tokens, targets[..n])
      modifies this
      ensures ok <==> n < store
      ensures files == WriteTargets(start, tokens, targets[..if ok || late then n + 1 else n])
    {
      WriteOneMore(start, tokens, targets, n);
      ok := n < store;
      if ok || late {
        match t {
          case RefreshFile => files := files.(refresh := tokens.refresh);
          case AccessFile => files := files.(access := tokens.access);
          case IdFile => files := files.(idToken := tokens.idToken);
        }
      }
    }

    /** The writes of a grant: the first `store` of them succeed. */
    method PersistGrant(sent: nat, tokens: TokenSet, store: nat, late: bool) returns (ok: bool)
      modifies this
      ensures ok <==> store >= |Targets(sent, tokens)|
      ensures ok ==> files == AfterGrant(old(files), sent, tokens)
      ensures !ok ==>
              files == WriteTargets(old(files), tokens, Targets(sent, tokens)[..if late then store + 1 else store])
    {
      hide WriteTargets, AfterGrant, Targets;
      ghost var start, targets := files, Targets(sent, tokens);
      var written := 0;
      GrantPrefixes(files, sent, tokens);
      if tokens.refresh.Some? && tokens.refresh.value != sent {
        ok := WriteOne(start, targets, written, tokens, RefreshFile, store, late);
        if !ok {
          return;
        }
        written := written + 1;
      }
      ok := WriteOne(start, targets, written, tokens, AccessFile, store, late);
      if !ok {
        return;
      }
      written := written + 1;
      if tokens.idToken.Some? {
        ok := WriteOne(start, targets, written, tokens, IdFile, store, late);
      }
    }

    /** `refresh_pro_tokens_with` for one process. */
    method RefreshProTokens(now: int, lead: int, w: Surroundings) returns (r: Result<Outcome, RefreshError>)
      modifies this
      ensures (r, files) == Attempt(old(files), now, lead, w)
      ensures !NeedsRefresh(old(files), now, lead) ==> r == Success(NotNeeded) && files == old(files)
      ensures NeedsRefresh(old(files), now, lead) && !w.lockAcquired ==> r == Failure(LockFailed) && files == old(files)
      ensures NeedsRefresh(old(files), now, lead) && w.lockAcquired && !NeedsRefresh(w.peer, w.nowLocked, lead) ==>
                r == Success(SkippedRefreshedByPeer) && files == w.peer
      ensures NeedsRefresh(old(files), now, lead) && w.lockAcquired && NeedsRefresh(w.peer, w.nowLocked, lead) ==>
                match w.peer.refresh
                case None => r == WithoutRefreshToken(w.peer, w.nowRead) && files == w.peer
                case Some(sent) =>
                  match w.exchange(sent)
                  case Rejected =>
                    r == Failure(SessionExpired) && files == if w.removable then w.peer.(refresh := None) else w.peer
                  case Transient => r == Failure(ExchangeFailed) && files == w.peer
                  case Granted(tokens) =>
                    if w.store >= |Targets(sent, tokens)|
                    then r == Success(Refreshed) && files == AfterGrant(w.peer, sent, tokens)
                    else r == Failure(StoreFailed)
                         && files == WriteTargets(w.peer, tokens,
                             Targets(sent, tokens)[..if w.late then w.store + 1 else w.store])
    {
      if !NeedsRefresh(files, now, lead) {
        return Success(NotNeeded);
      }
      if !w.lockAcquired {
        return Failure(LockFailed);
      }
      files := w.peer;
      if !NeedsRefresh(files, w.nowLocked, lead) {
        return Success(SkippedRefreshedByPeer);
      }
      if files.refresh.None? {
        return WithoutRefreshToken(files, w.nowRead);
      }
      var sent := files.refresh.value;
      match w.exchange(sent) {
        case Rejected =>
          if w.removable {
            files := files.(refresh := None);
          }
          return Failure(SessionExpired);
        case Transient =>
          return Failure(ExchangeFailed);
        case Granted(tokens) =>
          var ok := PersistGrant(sent, tokens, w.store, w.late);
          return if ok then Success(Refreshed) else Failure(StoreFailed);
      }
    }

    /**
     `ensure_fresh_pro_tokens`: the same decision once more in front. Without a
     refresh token nothing is sent or written, and only an already expired
     session is an error.
     */
    method EnsureFreshProTokens(now: int, nowRead: int, lead: int, configured: bool, nowAgain: int, w: Surroundings)
      returns (r: Result<Outcome, RefreshError>)
      modifies this
      ensures !NeedsRefresh(old(files), now, lead) ==> r == Success(NotNeeded) && files == old(files)
      ensures NeedsRefresh(old(files), now, lead) && old(files).refresh.None? ==>
                && files == old(files)
                && (r == Failure(SessionExpired) <==> EarliestExp(old(files)).value <= nowRead)
                && (r != Failure(SessionExpired) ==> r == Success(NotNeeded))
      ensures NeedsRefresh(old(files), now, lead) && old(files).refresh.Some? ==>
                if !configured then r == Failure(NotConfigured) && files == old(files)
                else if !NeedsRefresh(old(files), nowAgain, lead) then r == Success(NotNeeded) && files == old(files)
                else if !w.lockAcquired then r == Failure(LockFailed) && files == old(files)
                else if !NeedsRefresh(w.peer, w.nowLocked, lead) then
                  r == Success(SkippedRefreshedByPeer) && files == w.peer
                else
                  match w.peer.refresh
                  case None =>
                    && files == w.peer
                    && (r == Failure(SessionExpired) <==> EarliestExp(w.peer).value <= w.nowRead)
                    && (r != Failure(SessionExpired) ==> r == Success(NotNeeded))
                  case Some(sent) =>
                    match w.exchange(sent)
                    case Rejected =>
                      r == Failure(SessionExpired) && files == if w.removable then w.peer.(refresh := None) else w.peer
                    case Transient => r == Failure(ExchangeFailed) && files == w.peer
                    case Granted(tokens) =>
                      if w.store >= |Targets(sent, tokens)|
                      then r == Success(Refreshed) && files == AfterGrant(w.peer, sent, tokens)
                      else r == Failure(StoreFailed)
                           && files == WriteTargets(w.peer, tokens,
                                                    Targets(sent, tokens)[..if w.late then w.store + 1 else w.store])
      ensures r == Success(NotNeeded) ==>
                || !NeedsRefresh(old(files), now, lead) || old(files).refresh.None?
                || !NeedsRefresh(old(files), nowAgain, lead)
                || (w.lockAcquired && NeedsRefresh(w.peer, w.nowLocked, lead) && w.peer.refresh.None?)
      ensures r == Success(Refreshed) ==>
                && NeedsRefresh(old(files), now, lead) && NeedsRefresh(old(files), nowAgain, lead)
                && NeedsRefresh(w.peer, w.nowLocked, lead)
                && old(files).refresh.Some? && w.peer.refresh.Some?
                && w.exchange(w.peer.refresh.value).Granted?
                && files == AfterGrant(w.peer, w.peer.refresh.value, w.exchange(w.peer.refresh.value).tokens)
    {
      if !NeedsRefresh(files, now, lead) {
        return Success(NotNeeded);
      }
      if files.refresh.None? {
        return WithoutRefreshToken(files, nowRead);
      }
      if !configured {
        return Failure(NotConfigured);
      }
      r := RefreshProTokens(nowAgain, lead, w);
    }
  }

  // ---------------------------------------------------------------------
  // Atomic write of one secret file
  // ---------------------------------------------------------------------

  /** Where `write_secret_atomic` meets an I/O error, if it does. */
  datatype Fault = NoFault | AtMkdir | AtOpen | AtWrite(written: nat) | AtSync | AtRename | AtMode | AtDirectorySync

  class Directory {
    var disk: map<string, seq<char>>

    constructor (disk: map<string, seq<char>>)
      ensures this.disk == disk
    {
      this.disk := disk;
    }

    /** `write_tmp_and_rename`: exclusive create, write, sync, rename. */
    method WriteTmpAndRename(tmp: string, name: string, contents: seq<char>, fault: Fault) returns (ok: bool)
      requires tmp != name
      modifies this
      ensures forall n :: n != tmp && n != name ==>
              (n in disk <==> n in old(disk)) && (n in disk ==> disk[n] == old(disk)[n])
      ensures ok ==> disk == old(disk)[name := contents] - {tmp}
      ensures !ok ==> (name in disk <==> name in old(disk)) && (name in disk ==> disk[name] == old(disk)[name])
      ensures ok <==> tmp !in old(disk) && !(fault.AtOpen? || fault.AtWrite? || fault.AtSync? || fault.AtRename?)
    {
      if tmp in disk || fault.AtOpen? {
        return false;
      }
      disk := disk[tmp := []];
      if fault.AtWrite? {
        disk := disk[tmp := if fault.written <= |contents| then contents[..fault.written] else contents];
        return false;
      }
      disk := disk[tmp := contents];
      if fault.AtSync? || fault.AtRename? {
        return false;
      }
      disk := disk[name := disk[tmp]] - {tmp};
      ok := true;
    }

    /**
     `write_secret_atomic`: the file is its whole old self or wholly the new
     contents, whatever fails; nothing else changes, and of the temporary name
     nothing is left once the directory could be reached.
     */
    method WriteSecretAtomic(tmp: string, name: string, contents: seq<char>, fault: Fault) returns (ok: bool)
      requires tmp != name
      modifies this
      ensures ok <==> fault.NoFault? && tmp !in old(disk)
      ensures disk ==
              if fault.AtMkdir? then old(disk)
              else if tmp in old(disk) then old(disk) - {tmp}
              else if fault.NoFault? || fault.AtMode? || fault.AtDirectorySync? then old(disk)[name := contents]
              else old(disk)
    {
      if fault.AtMkdir? {
        return false;
      }
      var renamed := WriteTmpAndRename(tmp, name, contents, fault);
      if !renamed {
        disk := disk - {tmp};
        return false;
      }
      assert tmp !in old(disk)[name := contents];
      assert old(disk)[name := contents] - {tmp} == old(disk)[name := contents];
      if fault.AtMode? {
        return false;
      }
      if fault.AtDirectorySync? {
        return false;
      }
      ok := true;
    }
  }
}
