/** The node-cron controller: one scheduled task at a time, with the schedule string it was
    started with. A task is an abstract handle; whether it is still active is tracked by the set
    of tasks started and not yet stopped. */
module StandardCron {
  import opened Common

  /** Every three days at 08:00. */
  const DefaultSchedule: string := "0 8 */3 * *"

  /** `cronSchedule || process.env.CRON_SCHEDULE || DefaultSchedule`: the first non-empty one. */
  function ChooseSchedule(argument: Option<string>, env: Env): (schedule: string)
    ensures Truthy(argument) ==> schedule == argument.value
    ensures !Truthy(argument) && Truthy(Lookup(env, "CRON_SCHEDULE")) ==> schedule == env["CRON_SCHEDULE"]
    ensures !Truthy(argument) && !Truthy(Lookup(env, "CRON_SCHEDULE")) ==> schedule == DefaultSchedule
    ensures schedule != ""
  {
    OrElse(argument, OrElse(Lookup(env, "CRON_SCHEDULE"), DefaultSchedule))
  }

  /** A scheduled task: a fresh identity and the schedule it runs on. */
  datatype Task = Task(id: nat, schedule: string)

  /** The module's `emailCronJob` and `currentSchedule`, with the tasks that are active. */
  class CronController {
    var emailCronJob: Option<Task>
    var currentSchedule: string
    var active: set<nat>
    var created: nat

    /** At most one task is active, and it is the held one; the schedule shown is its schedule,
        or empty when none is held. */
    predicate Valid()
      reads this
    {
      && (forall id :: id in active ==> id < created)
      && (emailCronJob.None? ==> active == {} && currentSchedule == "")
      && (emailCronJob.Some? ==>
            && active == {emailCronJob.value.id}
            && currentSchedule == emailCronJob.value.schedule)
    }

    /** `getCronStatus()`. */
    function Status(): (status: (bool, string))
      reads this
      ensures status.0 <==> emailCronJob.Some?
      ensures status.1 == currentSchedule
      ensures Valid() ==> (!status.0 <==> active == {})
    {
      (emailCronJob != None, currentSchedule)
    }

    /** Module load: nothing scheduled. */
    constructor ()
      ensures Valid() && emailCronJob == None && currentSchedule == "" && active == {}
    {
      emailCronJob, currentSchedule, active, created := None, "", {}, 0;
    }

    /** `startEmailCron(cronSchedule)`: stop the held task, then schedule a new one on the chosen
        schedule; it is the only active task afterwards. */
    method Start(argument: Option<string>, env: Env) returns (job: Task)
      requires Valid()
      modifies this
      ensures Valid()
      ensures emailCronJob == Some(job) && job.id == old(created) && job.id !in old(active)
      ensures active == {job.id}
      ensures Status() == (true, ChooseSchedule(argument, env))
    {
      var schedule := ChooseSchedule(argument, env);
      if emailCronJob.Some? {
        active := active - {emailCronJob.value.id};
      }
      currentSchedule := schedule;
      job := Task(created, schedule);
      created := created + 1;
      active := active + {job.id};
      emailCronJob := Some(job);
    }

    /** `stopEmailCron()`: with a task held, stop it and clear the handle and the schedule;
        without one, nothing changes. */
    method Stop()
      requires Valid()
      modifies this
      ensures Valid()
      ensures Status() == (false, "") && active == {}
      ensures old(emailCronJob).None? ==> currentSchedule == old(currentSchedule) && active == old(active)
      ensures created == old(created)
    {
      if emailCronJob.Some? {
        active := active - {emailCronJob.value.id};
        emailCronJob := None;
        currentSchedule := "";
      }
    }
  }
}
