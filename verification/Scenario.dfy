/** One org with one project and its owner: the state the counterexamples start from. */
module Scenario {
  import opened Models
  import opened TaskService
  import opened ProjectService
  import opened Api
  import opened Runs

  const REGISTER := Req(0, Register("ann@example.com", "Ann"))
  const CREATE_ORG := Req(0, CreateOrg("Acme"))
  const ADD_PROJECT := Req(0, AddProject(0, ProjectCreate("Launch", Planning, None, None)))

  const ASK := Req(0, Request(0))

  function AddTaskIn(status: TaskStatus): Req {
    Req(0, AddTask(0, TaskCreate("Ship it", None, status, Medium, None, None)))
  }

  function ATask(status: TaskStatus): Task {
    Task(0, 0, Some("Ship it"), None, Some(status), Some(Medium), None, None)
  }

  const REGISTERED := EMPTY_TABLES.(users := [User("ann@example.com", "Ann", true)])
  const FOUNDED := REGISTERED.(orgs := [Organization("Acme", "free")], members := [OrgMember(0, 0, Owner)])
  const READY := FOUNDED.(projects := [Project(0, "Launch", Planning, None, None)])

  /** A workspace with one task in the given status. */
  function Workspace(status: TaskStatus): Tables {
    READY.(tasks := [ATask(status)])
  }

  function Setup(status: TaskStatus): seq<Req> {
    [REGISTER] + ([CREATE_ORG] + ([ADD_PROJECT] + [AddTaskIn(status)]))
  }

  lemma RegisterStep()
    ensures Handle(EMPTY_TABLES, REGISTER).tables == REGISTERED
  {
  }

  lemma CreateOrgStep()
    ensures Handle(REGISTERED, CREATE_ORG).tables == FOUNDED
  {
  }

  lemma AddProjectStep()
    ensures Handle(FOUNDED, ADD_PROJECT).tables == READY
  {
  }

  lemma AddTaskStep(status: TaskStatus)
    ensures Handle(READY, AddTaskIn(status)) == Response(Workspace(status), Ok(0))
  {
  }

  lemma SetupRuns(status: TaskStatus)
    ensures Run(Setup(status)) == Workspace(status)
  {
    hide Handle;
    RunFromCons(EMPTY_TABLES, REGISTER, [CREATE_ORG] + ([ADD_PROJECT] + [AddTaskIn(status)]));
    RegisterStep();
    RunFromCons(REGISTERED, CREATE_ORG, [ADD_PROJECT] + [AddTaskIn(status)]);
    CreateOrgStep();
    RunFromCons(FOUNDED, ADD_PROJECT, [AddTaskIn(status)]);
    AddProjectStep();
    AddTaskStep(status);
    assert [AddTaskIn(status)][..0] == [];
  }
}
