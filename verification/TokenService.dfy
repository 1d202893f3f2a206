/**
 Refresh-token rotation in its own form: the repository's statements and the refresh request update the table and the
 requests in place.  Each method is one stretch between two points where other requests may come in between, and does
 what the state machine says.
 */
module TokenService {
  import opened Common
  import M = TokenRotation

  class Repository {
    var rows: M.Tokens
    var claims: set<nat>
    var families: nat

    ghost function View(): M.Table
      reads this
    {
      M.Table(rows, claims, families)
    }

    ghost predicate Valid()
      reads this
    {
      forall t | 0 <= t < |rows| :: rows[t].family < families
    }

    constructor ()
      ensures Valid() && View() == M.EMPTY.table
    {
      rows, claims, families := [], {}, 0;
    }

    method Create() returns (id: nat)
      requires Valid()
      modifies this
      ensures Valid() && View() == M.Created(old(View()))
      ensures id == |old(rows)| && forall t | 0 <= t < id :: rows[t].family != rows[id].family
    {
      id := |rows|;
      rows := rows + [M.Token(families, M.Active, None)];
      families := families + 1;
    }

    /** rotate as far as it goes without committing; a row another rotation holds is waited for first. */
    method BeginRotate(id: nat) returns (conflict: bool)
      requires id < |rows| && id !in claims
      modifies this`claims
      ensures conflict == !rows[id].status.Active?
      ensures View() == if conflict then old(View()) else M.Claimed(old(View()), id)
    {
      conflict := true;
      if rows[id].status.Active? {
        claims := claims + {id};
        conflict := false;
      }
    }

    method CommitRotate(id: nat) returns (successor: nat)
      requires Valid() && id < |rows| && id in claims
      modifies this`rows, this`claims
      ensures Valid() && View() == M.Committed(old(View()), id) && successor == |old(rows)|
    {
      successor := |rows|;
      rows := rows[id := rows[id].(status := M.Rotated, replacedBy := Some(successor))];
      rows := rows + [M.Token(rows[id].family, M.Active, None)];
      claims := claims - {id};
    }

    method RollBackRotate(id: nat)
      modifies this`claims
      ensures View() == M.Released(old(View()), id)
    {
      claims := claims - {id};
    }

    /** The UPDATE of revoke_family has started when there were `upto` rows, and has waited for those it saw. */
    method RevokeFamily(family: nat, upto: nat)
      requires M.Unclaimed(View(), family, upto)
      modifies this`rows
      ensures |rows| == |old(rows)|
      ensures forall i | 0 <= i < |rows| && i < upto && old(rows)[i].family == family ::
                rows[i] == M.Token(family, M.Revoked, old(rows)[i].replacedBy)
      ensures forall i | 0 <= i < |rows| && !(i < upto && old(rows)[i].family == family) :: rows[i] == old(rows)[i]
    {
      var seen := rows;
      rows := seq(|seen|, i requires 0 <= i < |seen| =>
        if i < upto && seen[i].family == family then seen[i].(status := M.Revoked) else seen[i]);
    }

    method RevokeByJti(id: nat)
      requires id < |rows| && id !in claims
      modifies this`rows
      ensures |rows| == |old(rows)|
      ensures rows[id] == M.Token(old(rows)[id].family, M.Revoked, old(rows)[id].replacedBy)
      ensures forall i | 0 <= i < |rows| && i != id :: rows[i] == old(rows)[i]
    {
      rows := rows[id := rows[id].(status := M.Revoked)];
    }
  }

  class Service {
    const repository: Repository
    var requests: seq<M.Request>

    ghost function View(): M.Server
      reads this, repository
    {
      M.Server(repository.View(), requests)
    }

    ghost predicate Valid()
      reads this, repository
    {
      M.Invariant(View())
    }

    constructor ()
      ensures Valid() && fresh(repository) && View() == M.EMPTY
    {
      repository := new Repository();
      requests := [];
    }

    // ------------------------------------------------------------ the stretches of a refresh request

    method Present(token: nat)
      requires M.Enabled(View(), M.Arrive(token))
      modifies this`requests
      ensures View() == M.Apply(old(View()), M.Arrive(token))
    {
      requests := requests + [M.Request(token, M.Presented)];
    }

    method Goto(r: nat, stage: M.Stage)
      requires r < |requests|
      modifies this`requests
      ensures requests == old(requests)[r := old(requests)[r].(stage := stage)]
    {
      requests := requests[r := requests[r].(stage := stage)];
    }

    /** The token is looked up, and a reuse detected. */
    method OnRead(r: nat)
      requires M.Enabled(View(), M.Read(r))
      modifies this`requests
      ensures View() == M.Apply(old(View()), M.Read(r))
    {
      if !repository.rows[requests[r].token].status.Active? {
        Goto(r, M.Revoking);
      } else {
        Goto(r, M.Rotating);
      }
    }

    method OnRotate(r: nat)
      requires M.Enabled(View(), M.Claim(r))
      modifies this`requests, repository`claims
      ensures View() == M.Apply(old(View()), M.Claim(r))
    {
      var conflict := repository.BeginRotate(requests[r].token);
      if conflict {
        Goto(r, M.Revoking);
      } else {
        Goto(r, M.Claiming);
      }
    }

    method OnCommit(r: nat)
      requires repository.Valid() && M.Enabled(View(), M.Commit(r)) && requests[r].token in repository.claims
      modifies this`requests, repository`rows, repository`claims
      ensures View() == M.Apply(old(View()), M.Commit(r))
    {
      var successor := repository.CommitRotate(requests[r].token);
      Goto(r, M.Granted(successor));
    }

    method OnReplay(r: nat)
      requires M.Enabled(View(), M.Sweep(r))
      modifies this`requests
      ensures View() == M.Apply(old(View()), M.Sweep(r))
    {
      Goto(r, M.Sweeping(|repository.rows|));
    }

    method OnRevoked(r: nat)
      requires M.Enabled(View(), M.Revoke(r))
      modifies this`requests, repository`rows
      ensures View() == M.Apply(old(View()), M.Revoke(r))
    {
      var upto := requests[r].stage.upto;
      repository.RevokeFamily(repository.rows[requests[r].token].family, upto);
      Goto(r, M.Replayed(upto));
      assert repository.rows == M.FamilyRevoked(old(repository.rows), old(M.FamilyOf(View(), r)), upto);
    }

    method OnFail(r: nat)
      requires M.Enabled(View(), M.Fail(r))
      modifies this`requests, repository`claims
      ensures View() == M.Apply(old(View()), M.Fail(r))
    {
      if requests[r].stage.Claiming? {
        repository.RollBackRotate(requests[r].token);
      }
      Goto(r, M.Failed);
    }

    // ------------------------------------------------------------ logins and logouts

    method Login()
      requires repository.Valid()
      modifies repository
      ensures View() == M.Apply(old(View()), M.Issue)
    {
      var _ := repository.Create();
    }

    method Logout(token: nat)
      requires M.Enabled(View(), M.Logout(token))
      modifies repository`rows
      ensures View() == M.Apply(old(View()), M.Logout(token))
    {
      repository.RevokeByJti(token);
      assert repository.rows == M.OneRevoked(old(repository.rows), token);
    }

    // ------------------------------------------------------------ any schedule

    method Perform(e: M.Event)
      requires repository.Valid() && M.Enabled(View(), e)
      requires e.Commit? ==> requests[e.request].token in repository.claims
      modifies this`requests, repository
      ensures View() == M.Apply(old(View()), e)
    {
      match e {
        case Issue => Login();
        case Arrive(t) => Present(t);
        case Read(r) => OnRead(r);
        case Claim(r) => OnRotate(r);
        case Commit(r) => OnCommit(r);
        case Sweep(r) => OnReplay(r);
        case Revoke(r) => OnRevoked(r);
        case Fail(r) => OnFail(r);
        case Logout(t) => Logout(t);
      }
    }

    /** Whatever comes next, the code does what the machine does and keeps the machine's invariant. */
    method Turn(e: M.Event)
      requires Valid() && M.Enabled(View(), e)
      modifies this`requests, repository
      ensures Valid() && View() == M.Apply(old(View()), e)
    {
      ghost var before := View();
      if e.Commit? {
        assert M.RequestOk(before.table, before.requests[e.request]);
      }
      Perform(e);
      M.InvariantKept(before, e);
    }
  }
}
