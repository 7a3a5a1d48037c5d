/**
 * The encapsulation examples of pythonBasicAndAdvance/oopsInPy/pythonextratopics/encapsulation.py:
 * a class with public, "protected" and name-mangled fields, a salary kept
 * behind a validating property setter, and an API client whose token
 * property has a deleter.
 */
module Encapsulation {
  import opened Outcomes

  /** `person`: the constructor fixes all three fields. */
  class Person {
    var name: string
    /** `_age`: protected by naming convention only. */
    var age: int
    /** `__ssn`: hidden from outside the class by name mangling. */
    var ssn: string

    constructor ()
      ensures name == "shamanth" && age == 30 && ssn == "123-45-6789"
    {
      name := "shamanth";
      age := 30;
      ssn := "123-45-6789";
    }
  }

  /** The module's first demonstration: the public and the protected field are readable. */
  method PersonDemo() returns (name: string, age: int)
    ensures name == "shamanth" && age == 30
  {
    var p := new Person();
    name := p.name;
    age := p.age;
  }

  /**
   * `Employee`, whose `salary` property reads and writes `_salary`.
   * `Employeee` is a line-for-line copy of it and is modelled by this class too.
   */
  class Employee {
    var name: string
    /** `_salary`. */
    var salary: int

    /** The constructor stores the salary unchecked, so it may be negative. */
    constructor (name: string, salary: int)
      ensures this.name == name && this.salary == salary
    {
      this.name := name;
      this.salary := salary;
    }

    /** The `salary` getter: the stored `_salary`, with no check. */
    function Salary(): (s: int)
      reads this
      ensures s == salary
    {
      salary
    }

    /**
     * The `salary` setter: a negative value raises ValueError and leaves the
     * salary as it was; any other value is stored, so the getter returns it.
     */
    method SetSalary(value: int) returns (outcome: Outcome)
      modifies this
      ensures value < 0 ==> outcome == Fail(ValueError) && Salary() == old(Salary())
      ensures value >= 0 ==> outcome == Done && Salary() == value
      ensures name == old(name)
    {
      if value < 0 {
        return Fail(ValueError);
      }
      salary := value;
      return Done;
    }
  }

  /** The module's first salary demonstration: 50000, then 60000 after the setter. */
  method EmployeeDemo() returns (before: int, outcome: Outcome, after: int)
    ensures before == 50000 && outcome == Done && after == 60000
  {
    var emp := new Employee("John", 50000);
    before := emp.Salary();
    outcome := emp.SetSalary(60000);
    after := emp.Salary();
  }

  /** The `Employeee` demonstration: 50000, then 1 after the setter. */
  method EmployeeeDemo() returns (before: int, outcome: Outcome, after: int)
    ensures before == 50000 && outcome == Done && after == 1
  {
    var emp := new Employee("John", 50000);
    before := emp.Salary();
    outcome := emp.SetSalary(1);
    after := emp.Salary();
  }

  /** A negative salary is refused by the setter but accepted by the constructor. */
  method NegativeSalaryDemo() returns (refused: Outcome, kept: int, start: int)
    ensures refused == Fail(ValueError) && kept == 50000
    ensures start == -1
  {
    var emp := new Employee("John", 50000);
    refused := emp.SetSalary(-1);
    kept := emp.Salary();
    var other := new Employee("Jane", -1);
    start := other.Salary();
  }

  /** `APIclinet`: the `setToken` property reads `__token`, and its deleter sets it to None. */
  class ApiClient {
    /** `__token`; None once deleted. */
    var token: Option<string>

    constructor ()
      ensures token == Some("abcd123")
    {
      token := Some("abcd123");
    }

    /** The `setToken` getter: the stored `__token`, None once deleted. */
    function Token(): (t: Option<string>)
      reads this
      ensures t == token
    {
      token
    }

    /** The `setToken` deleter, run by `del api.setToken`. */
    method DeleteToken()
      modifies this
      ensures Token() == None
    {
      token := None;
    }
  }

  /** The module's demonstration: the token starts as "abcd123" and reads None after `del`. */
  method ApiClientDemo() returns (first: Option<string>, afterDelete: Option<string>)
    ensures first == Some("abcd123") && afterDelete == None
  {
    var api := new ApiClient();
    first := api.Token();
    api.DeleteToken();
    afterDelete := api.Token();
  }

  /** Deleting twice is the same as deleting once. */
  method DeleteTwiceDemo() returns (once: Option<string>, twice: Option<string>)
    ensures once == None && twice == once
  {
    var api := new ApiClient();
    api.DeleteToken();
    once := api.Token();
    api.DeleteToken();
    twice := api.Token();
  }
}
