/** `CommentRepository`. A `DateTime` is a tick count; the clock reading
    that `CreateAsync` stamps is passed in as `now`. */
module Comments {
  import opened Queries

  datatype Comment = Comment(
    id: string,
    username: string,
    content: string,
    date: int,
    projectId: string)

  /** The inclusive range test of `GetByDateRangeAsync`. */
  predicate InRange(c: Comment, startDate: int, endDate: int)
  {
    startDate <= c.date && c.date <= endDate
  }

  class CommentRepository {
    var comments: seq<Comment>

    constructor (initial: seq<Comment>)
      ensures comments == initial
    {
      comments := initial;
    }

    /** `CreateAsync`: overwrite the date with the current time, whatever
        the caller put there, insert the comment and hand it back. */
    method Create(comment: Comment, now: int) returns (created: Comment)
      modifies this
      ensures created == comment.(date := now)
      ensures comments == old(comments) + [created]
    {
      created := comment.(date := now);
      comments := comments + [created];
    }

    /** `GetAllAsync`: every stored comment, in collection order. */
    method GetAll() returns (r: seq<Comment>)
      ensures r == comments
    {
      r := comments;
    }

    /** `GetByDateRangeAsync`: the comments dated from `startDate` to
        `endDate`, both ends included, each as often as it is stored; none
        when the range is empty. */
    method GetByDateRange(startDate: int, endDate: int) returns (r: seq<Comment>)
      ensures r == Filter(comments, (c: Comment) => InRange(c, startDate, endDate))
      ensures forall c :: c in r ==> c in comments && startDate <= c.date <= endDate
      ensures forall c :: c in comments && startDate <= c.date <= endDate ==> c in r
      ensures forall c :: c in comments && InRange(c, startDate, endDate) ==>
        multiset(r)[c] == multiset(comments)[c]
      ensures startDate > endDate ==> r == []
    {
      r := Filter(comments, (c: Comment) => InRange(c, startDate, endDate));
      if startDate > endDate && r != [] {
        assert r[0] in r;
      }
    }

    /** `GetByProjectIdAsync`: the comments of this project, each as often
        as it is stored. */
    method GetByProjectId(projectId: string) returns (r: seq<Comment>)
      ensures r == Filter(comments, (c: Comment) => c.projectId == projectId)
      ensures forall c :: c in r ==> c in comments && c.projectId == projectId
      ensures forall c :: c in comments && c.projectId == projectId ==> c in r
      ensures forall c :: c in comments && c.projectId == projectId ==>
        multiset(r)[c] == multiset(comments)[c]
    {
      r := Filter(comments, (c: Comment) => c.projectId == projectId);
    }
  }
}
