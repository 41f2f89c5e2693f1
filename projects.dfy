/** `ProjectRepository` and `UpdateProjectCommandHandler`. The mapper to
    `ProjectDto` copies every field, so a project value stands for its DTO. */
module Projects {
  import opened Wrappers
  import opened Queries

  datatype Project = Project(
    id: string,
    title: string,
    description: string,
    owner: string,
    members: seq<string>)

  /** The `InvalidOperationException` that `UpdateAsync` throws when the
      store reports no modified document. */
  datatype ProjectError = NotFoundOrNotModified(projectId: string)

  /** Position of the first project with this id. */
  function IdIndex(projects: seq<Project>, id: string): Option<nat>
  {
    FirstIndex(projects, (p: Project) => p.id == id)
  }

  class ProjectRepository {
    var projects: seq<Project>

    constructor (initial: seq<Project>)
      ensures projects == initial
    {
      projects := initial;
    }

    /** `GetAllAsync`: every stored project, in collection order. */
    method GetAll() returns (r: seq<Project>)
      ensures r == projects
    {
      r := projects;
    }

    /** `GetByIdAsync`: the first project with this id, or none. */
    method GetById(id: string) returns (r: Option<Project>)
      ensures r.None? <==> forall p :: p in projects ==> p.id != id
      ensures r.Some? ==> r.value in projects && r.value.id == id
      ensures r.Some? ==> IdIndex(projects, id).Some? && r.value == projects[IdIndex(projects, id).value]
    {
      var k := IdIndex(projects, id);
      if k.Some? {
        r := Some(projects[k.value]);
      } else {
        r := None;
        forall p | p in projects ensures p.id != id {
          var i :| 0 <= i < |projects| && projects[i] == p;
        }
      }
    }

    /** `GetByOwnerAsync`: every project of this owner, each as often as it
        is stored. */
    method GetByOwner(owner: string) returns (r: seq<Project>)
      ensures r == Filter(projects, (p: Project) => p.owner == owner)
      ensures forall p :: p in r ==> p in projects && p.owner == owner
      ensures forall p :: p in projects && p.owner == owner ==> p in r
      ensures forall p :: p in projects && p.owner == owner ==> multiset(r)[p] == multiset(projects)[p]
    {
      r := Filter(projects, (p: Project) => p.owner == owner);
    }

    /** `CreateAsync`: insert the project and hand it back. */
    method Create(project: Project) returns (created: Project)
      modifies this
      ensures created == project
      ensures projects == old(projects) + [project]
    {
      projects := projects + [project];
      created := project;
    }

    /** `UpdateAsync`: replace the first project with the same id. The
        store counts a replacement by an identical document as not
        modified, so both a missing id and an unchanged project end in the
        error, and then the collection is as it was. */
    method Update(project: Project) returns (r: Result<Project, ProjectError>)
      modifies this
      ensures r.Failure? <==>
        IdIndex(old(projects), project.id).None? ||
        old(projects)[IdIndex(old(projects), project.id).value] == project
      ensures r.Failure? ==> r.error == NotFoundOrNotModified(project.id) && projects == old(projects)
      ensures r.Success? ==> (r.value == project && IdIndex(old(projects), project.id).Some? &&
        projects == old(projects)[IdIndex(old(projects), project.id).value := project])
    {
      var k := IdIndex(projects, project.id);
      var modifiedCount := 0;
      if k.Some? {
        if projects[k.value] != project {
          modifiedCount := 1;
        }
        projects := projects[k.value := project];
      }
      if modifiedCount == 0 {
        r := Failure(NotFoundOrNotModified(project.id));
      } else {
        r := Success(project);
      }
    }

    /** `DeleteAsync`: remove the first project with this id and say
        whether there was one; no other project is touched. */
    method Delete(id: string) returns (deleted: bool)
      modifies this
      ensures deleted <==> exists p :: p in old(projects) && p.id == id
      ensures !deleted ==> projects == old(projects)
      ensures deleted ==> (IdIndex(old(projects), id).Some? &&
        var k := IdIndex(old(projects), id).value;
        projects == old(projects)[..k] + old(projects)[k + 1..])
    {
      var k := IdIndex(projects, id);
      if k.Some? {
        var i := k.value;
        assert projects[i] in projects;
        projects := projects[..i] + projects[i + 1..];
        deleted := true;
      } else {
        deleted := false;
        forall p | p in projects ensures p.id != id {
          var i :| 0 <= i < |projects| && projects[i] == p;
        }
      }
    }
  }

  /** The body of a project update request. */
  datatype UpdateProjectRequest = UpdateProjectRequest(
    title: string,
    description: string,
    owner: string,
    members: seq<string>)

  datatype UpdateProjectCommand = UpdateProjectCommand(id: string, request: UpdateProjectRequest)

  /** The stored project with the four request fields written over it; the
      id stays. */
  function Overwrite(existing: Project, request: UpdateProjectRequest): (p: Project)
    ensures p.id == existing.id
    ensures p.title == request.title && p.description == request.description
    ensures p.owner == request.owner && p.members == request.members
  {
    existing.(title := request.title, description := request.description,
              owner := request.owner, members := request.members)
  }

  class UpdateProjectCommandHandler {
    const projectRepository: ProjectRepository

    constructor (repository: ProjectRepository)
      ensures projectRepository == repository
    {
      projectRepository := repository;
    }

    /** `Handle`: none for an unknown id, with no update attempted;
        otherwise the repository update of the overwritten project, whose
        error (for a request equal to what is stored) passes through. */
    method Handle(command: UpdateProjectCommand) returns (r: Result<Option<Project>, ProjectError>)
      modifies projectRepository
      ensures IdIndex(old(projectRepository.projects), command.id).None? ==>
        r == Success(None) && projectRepository.projects == old(projectRepository.projects)
      ensures IdIndex(old(projectRepository.projects), command.id).Some? ==>
        var k := IdIndex(old(projectRepository.projects), command.id).value;
        var updated := Overwrite(old(projectRepository.projects)[k], command.request);
        && updated.id == command.id
        && (updated == old(projectRepository.projects)[k] ==>
              r == Failure(NotFoundOrNotModified(command.id)) &&
              projectRepository.projects == old(projectRepository.projects))
        && (updated != old(projectRepository.projects)[k] ==>
              r == Success(Some(updated)) &&
              projectRepository.projects == old(projectRepository.projects)[k := updated])
    {
      var existing := projectRepository.GetById(command.id);
      if existing.None? {
        return Success(None);
      }
      var updated := Overwrite(existing.value, command.request);
      var result := projectRepository.Update(updated);
      match result
      case Failure(e) =>
        r := Failure(e);
      case Success(p) =>
        r := Success(Some(p));
    }
  }
}
