/**
 * pythonBasicAndAdvance/oopsInPy/inheretance.py: three animal classes that override `speak`
 * (inheritance), and a person who may hold a pet (composition).
 */
module Inheritance {
  import opened Outcomes

  /** `Animal` and its two subclasses; the dynamic class decides which `speak` runs. */
  datatype Animal = GenericAnimal | Dog | Cat

  /** `speak`, dispatched on the class of the animal: each class has its own sound. */
  function Speak(a: Animal): (s: string)
    ensures s == "Animal speaks" <==> a == GenericAnimal
    ensures s == "Woof!" <==> a == Dog
    ensures s == "Meow!" <==> a == Cat
  {
    match a
    case GenericAnimal => "Animal speaks"
    case Dog => "Woof!"
    case Cat => "Meow!"
  }

  /** The three classes say different things, so what is said tells the class. */
  lemma SpeakDistinguishes(a: Animal, b: Animal)
    requires Speak(a) == Speak(b)
    ensures a == b
  {
  }

  const Greeting: string := "Hi, I'm "
  const NoPet: string := " and I have no pet."
  const PetSays: string := " and my pet says: "

  /**
   * The f-string `introduce` builds for a person called `name` whose `pet`
   * attribute is `pet`; `if self.pet` is false only for None, since animal
   * objects are always true.
   */
  function Introduction(name: string, pet: Option<Animal>): string
  {
    match pet
    case None => Greeting + name + NoPet
    case Some(a) => Greeting + name + PetSays + Speak(a)
  }

  /** `Person`, holding a name and an optional pet. */
  class Person {
    var name: string
    var pet: Option<Animal>

    /** A new person has no pet. */
    constructor (name: string)
      ensures this.name == name && pet == None
    {
      this.name := name;
      pet := None;
    }

    /** `set_pet` replaces the pet (None removes it) and keeps the name. */
    method SetPet(pet: Option<Animal>)
      modifies this
      ensures this.pet == pet && name == old(name)
    {
      this.pet := pet;
    }

    /**
     * `introduce`, which reads the person and changes nothing: the greeting
     * and the name, then either the no-pet ending or what the pet says.
     */
    function Introduce(): (s: string)
      reads this
      ensures |Greeting + name| <= |s| && s[..|Greeting + name|] == Greeting + name
      ensures pet.None? ==> s[|Greeting + name|..] == NoPet
      ensures pet.Some? ==> s[|Greeting + name|..] == PetSays + Speak(pet.value)
    {
      IntroductionStartsWithName(name, pet);
      IntroductionEnding(name, pet);
      Introduction(name, pet)
    }
  }

  /** Every introduction opens with "Hi, I'm " and the person's name. */
  lemma IntroductionStartsWithName(name: string, pet: Option<Animal>)
    ensures |Greeting + name| <= |Introduction(name, pet)|
    ensures Introduction(name, pet)[..|Greeting + name|] == Greeting + name
  {
    var g := Greeting + name;
    var rest := if pet.None? then NoPet else PetSays + Speak(pet.value);
    assert Introduction(name, pet) == g + rest;
  }

  /**
   * A person with a pet ends with what that pet says; one without ends with
   * " and I have no pet.".
   */
  lemma IntroductionEnding(name: string, pet: Option<Animal>)
    ensures pet.None? ==> Introduction(name, pet)[|Greeting + name|..] == NoPet
    ensures pet.Some? ==> Introduction(name, pet)[|Greeting + name|..] == PetSays + Speak(pet.value)
  {
    var g := Greeting + name;
    if pet.None? {
      assert Introduction(name, pet) == g + NoPet;
    } else {
      assert Introduction(name, pet) == g + (PetSays + Speak(pet.value));
    }
  }

  /** Two introductions of the same person agree only when they have the same pet. */
  lemma {:induction false} IntroductionDeterminesPet(name: string, p: Option<Animal>, q: Option<Animal>)
    requires Introduction(name, p) == Introduction(name, q)
    ensures p == q
  {
    IntroductionEnding(name, p);
    IntroductionEnding(name, q);
    var g := |Greeting + name|;
    var t := Introduction(name, p)[g..];
    if p.None? != q.None? {
      assert false;
    } else if p.Some? {
      assert t[|PetSays|..] == Speak(p.value);
      assert t[|PetSays|..] == Speak(q.value);
      SpeakDistinguishes(p.value, q.value);
    }
  }

  /** The sentence of a person called Alice who has a dog. */
  lemma AliceWithDog(alice: string)
    requires alice == "Alice"
    ensures Introduction(alice, Some(Dog)) == "Hi, I'm Alice and my pet says: Woof!"
  {
    var g := Greeting + alice;
    assert g == "Hi, I'm Alice";
    var h := g + PetSays;
    assert h == "Hi, I'm Alice and my pet says: ";
    assert h + "Woof!" == "Hi, I'm Alice and my pet says: Woof!";
  }

  /** The sentence of a person called Alice who has a cat. */
  lemma AliceWithCat(alice: string)
    requires alice == "Alice"
    ensures Introduction(alice, Some(Cat)) == "Hi, I'm Alice and my pet says: Meow!"
  {
    var g := Greeting + alice;
    assert g == "Hi, I'm Alice";
    var h := g + PetSays;
    assert h == "Hi, I'm Alice and my pet says: ";
    assert h + "Meow!" == "Hi, I'm Alice and my pet says: Meow!";
  }

  /** The sentence of a person called Bob who has no pet. */
  lemma BobWithoutPet(bob: string)
    requires bob == "Bob"
    ensures Introduction(bob, None) == "Hi, I'm Bob and I have no pet."
  {
    var g := Greeting + bob;
    assert g == "Hi, I'm Bob";
    assert g + NoPet == "Hi, I'm Bob and I have no pet.";
  }

  /** The module's demonstration: Alice with a dog, Alice with a cat, Bob with no pet. */
  method Demo() returns (first: string, second: string, third: string)
    ensures first == "Hi, I'm Alice and my pet says: Woof!"
    ensures second == "Hi, I'm Alice and my pet says: Meow!"
    ensures third == "Hi, I'm Bob and I have no pet."
  {
    AliceWithDog("Alice");
    AliceWithCat("Alice");
    BobWithoutPet("Bob");
    var person := new Person("Alice");
    person.SetPet(Some(Dog));
    first := person.Introduce();
    var person2 := new Person("Alice");
    person2.SetPet(Some(Cat));
    second := person2.Introduce();
    var person3 := new Person("Bob");
    third := person3.Introduce();
  }
}
